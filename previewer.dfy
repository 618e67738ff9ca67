/**
 * `VideoPreviewer`: the thumbnail strip of a video clip. It keeps the
 * thumbnails currently laid out (`thumbs`, keyed by quantized time), the
 * queue of times awaiting a decode, the timestamp of the outstanding seek,
 * and the persistent `ThumbnailCache` of its source file.
 */
module Previewer {
  import opened Wrappers
  import opened ContentAddress
  import opened ThumbCache
  import opened Geometry
  import opened RequestQueue

  /** What a thumbnail shows: pixel data and row stride. */
  datatype Image = Image(pixels: seq<byte>, rowstride: int)

  /** A `Thumbnail` actor: its size and the image set on it, if any. */
  datatype Thumbnail = Thumbnail(width: int, height: int, image: Option<Image>)

  /** `Thumbnail.set_from_gdkpixbuf`: the pixbuf's pixels, drawn at the thumbnail's own size. */
  function SetFromPixbuf(thumb: Thumbnail, pixbuf: Pixbuf): (r: Thumbnail)
    ensures r.width == thumb.width && r.height == thumb.height
    ensures r.image.Some? && r.image.value.pixels == pixbuf.pixels && r.image.value.rowstride == pixbuf.rowstride
  {
    thumb.(image := Some(Image(pixbuf.pixels, pixbuf.rowstride)))
  }

  /** The thumbnail laid out for a time whose cache lookup gave `lookup`. */
  function LaidOut(width: int, height: int, lookup: Result<Pixbuf, KeyError>): Thumbnail
  {
    match lookup
    case Success(pixbuf) => SetFromPixbuf(Thumbnail(width, height, None), pixbuf)
    case Failure(_) => Thumbnail(width, height, None)
  }

  /** The strip laid out for `times`: one thumbnail per time, filled when the table `rows` holds its frame. */
  function LayOutStrip(times: seq<int>, rows: seq<Row>, width: int, height: int): map<int, Thumbnail>
  {
    map t | t in times :: LaidOut(width, height, Lookup(rows, t))
  }

  lemma LayOutStripStep(times: seq<int>, i: nat, rows: seq<Row>, width: int, height: int)
    requires i < |times|
    ensures LayOutStrip(times[..i + 1], rows, width, height) ==
      LayOutStrip(times[..i], rows, width, height)[times[i] := LaidOut(width, height, Lookup(rows, times[i]))]
  {
    assert times[..i + 1] == times[..i] + [times[i]];
  }

  /** `thumb_width` when the preroll fails: a 16:9 frame of the thumbnail height. */
  const FallbackWidth: int := 16 * ThumbHeight / 9

  /**
   * The driver after `_thumbForTime` has run for each of `times` in turn
   * against the table `rows`: hits leave it alone, misses are requested.
   */
  function Populate(s: Driver, times: seq<int>, rows: seq<Row>, seek: int -> bool): (r: Driver)
    ensures |r.queue| <= |s.queue| + |times|
    decreases |times|
  {
    if times == [] then s
    else
      var before := Populate(s, times[..|times| - 1], rows, seek);
      var t := times[|times| - 1];
      if SelectTime(rows, t).Some? then before else Request(before, t, seek)
  }

  /**
   * Laying out a strip keeps the driver invariant; every uncached time ends up
   * queued unless its own seek was rejected; nothing already queued is lost,
   * and nothing enters the queue but uncached times of the strip.
   */
  lemma {:induction false} PopulateRequestsMisses(s: Driver, times: seq<int>, rows: seq<Row>, seek: int -> bool)
    requires DriverInvariant(s)
    ensures var r := Populate(s, times, rows, seek);
      && DriverInvariant(r)
      && (forall t :: t in times && SelectTime(rows, t).None? ==> t in r.queue || !seek(t))
      && (forall x :: x in s.queue ==> x in r.queue)
      && (forall x :: x in r.queue ==> x in s.queue || (x in times && SelectTime(rows, x).None?))
    decreases |times|
  {
    if times != [] {
      var prefix := times[..|times| - 1];
      var t := times[|times| - 1];
      PopulateRequestsMisses(s, prefix, rows, seek);
      var before := Populate(s, prefix, rows, seek);
      assert forall x :: x in times ==> x in prefix || x == t;
      if SelectTime(rows, t).None? {
        RequestKeepsInvariant(before, t, seek);
      }
    }
  }

  /** The seeks `_thumbForTime` issues over `times` in turn: those of each miss's request. */
  function PopulateSeeks(s: Driver, times: seq<int>, rows: seq<Row>, seek: int -> bool): (r: seq<int>)
    ensures |r| <= |times|
    decreases |times|
  {
    if times == [] then []
    else
      var prefix := times[..|times| - 1];
      var t := times[|times| - 1];
      PopulateSeeks(s, prefix, rows, seek) +
        if SelectTime(rows, t).Some? then [] else RequestAttempts(Populate(s, prefix, rows, seek), t, seek)
  }

  /** Laying out a strip seeks only uncached times of the strip. */
  lemma {:induction false} PopulateSeeksOnlyMisses(s: Driver, times: seq<int>, rows: seq<Row>, seek: int -> bool)
    ensures forall x :: x in PopulateSeeks(s, times, rows, seek) ==> x in times && SelectTime(rows, x).None?
    decreases |times|
  {
    if times != [] {
      var prefix := times[..|times| - 1];
      PopulateSeeksOnlyMisses(s, prefix, rows, seek);
      assert forall x :: x in prefix ==> x in times;
    }
  }

  /** The strip's times are distinct, so each uncached one is sought at most once. */
  lemma {:induction false} PopulateSeeksOnce(s: Driver, times: seq<int>, rows: seq<Row>, seek: int -> bool)
    requires NoDuplicates(times)
    ensures NoDuplicates(PopulateSeeks(s, times, rows, seek))
    decreases |times|
  {
    if times != [] {
      var prefix := times[..|times| - 1];
      var t := times[|times| - 1];
      SuffixFreePrefix(times);
      PopulateSeeksOnce(s, prefix, rows, seek);
      PopulateSeeksOnlyMisses(s, prefix, rows, seek);
      var earlier := PopulateSeeks(s, prefix, rows, seek);
      if SelectTime(rows, t).None? && RequestAttempts(Populate(s, prefix, rows, seek), t, seek) != [] {
        AppendNoDuplicates(earlier, t);
      }
    }
  }

  /** Dropping the last of distinct times keeps them distinct and leaves out the last. */
  lemma SuffixFreePrefix(times: seq<int>)
    requires NoDuplicates(times) && times != []
    ensures NoDuplicates(times[..|times| - 1]) && times[|times| - 1] !in times[..|times| - 1]
  {
    var prefix := times[..|times| - 1];
    forall j | 0 <= j < |prefix| ensures prefix[j] != times[|times| - 1] {
      assert prefix[j] == times[j];
    }
  }

  /** A strip whose every time is cached starts no decode. */
  lemma CachedStripSeeksNothing(s: Driver, times: seq<int>, rows: seq<Row>, seek: int -> bool)
    requires forall t :: t in times ==> SelectTime(rows, t).Some?
    ensures PopulateSeeks(s, times, rows, seek) == []
  {
    PopulateSeeksOnlyMisses(s, times, rows, seek);
  }

  /** One more time laid out: `Populate` over a longer prefix takes one more `_thumbForTime` step. */
  lemma PopulateStep(s: Driver, times: seq<int>, i: nat, rows: seq<Row>, seek: int -> bool)
    requires i < |times|
    ensures Populate(s, times[..i + 1], rows, seek) ==
      var before := Populate(s, times[..i], rows, seek);
      if SelectTime(rows, times[i]).Some? then before else Request(before, times[i], seek)
    ensures PopulateSeeks(s, times[..i + 1], rows, seek) ==
      PopulateSeeks(s, times[..i], rows, seek) +
        if SelectTime(rows, times[i]).Some? then [] else RequestAttempts(Populate(s, times[..i], rows, seek), times[i], seek)
  {
    assert times[..i + 1][..i] == times[..i];
  }

  class VideoPreviewer {
    /** The clip's duration and in-point, in nanoseconds. */
    var duration: nat
    var inPoint: nat
    const thumbWidth: int
    const thumbHeight: int
    /** The thumbnails laid out, by time. */
    var thumbs: map<int, Thumbnail>
    /** Times awaiting a decode, oldest first. */
    var queue: seq<int>
    /** The time of the last seek issued, if any. */
    var waitingTimestamp: Option<int>
    const thumbCache: ThumbnailCache
    /** Every seek sent to the pipeline, in order. */
    ghost var seeks: seq<int>

    ghost predicate Valid()
      reads this, thumbCache
    {
      thumbCache.Valid() && DriverInvariant(DriverState())
    }

    function DriverState(): Driver
      reads this
    {
      Driver(queue, waitingTimestamp)
    }

    /**
     * Takes the element's duration and in-point, the width negotiated by the
     * prerolled pipeline (none if the preroll failed), the source file's
     * contents and the thumbnail directory, and opens the cache.
     */
    constructor (elementDuration: nat, elementInPoint: nat, negotiatedWidth: Option<int>,
                 source: seq<byte>, disk: map<Digest, seq<Row>>)
      requires forall d :: d in disk ==> UniqueTimes(disk[d])
      ensures Valid() && fresh(thumbCache)
      ensures duration == elementDuration && inPoint == elementInPoint
      ensures thumbHeight == ThumbHeight
      ensures thumbWidth == if negotiatedWidth.Some? then negotiatedWidth.value else FallbackWidth
      ensures thumbs == map[] && queue == [] && waitingTimestamp == None && seeks == []
      ensures thumbCache.hash == PrefixDigest(source)
      ensures thumbCache.rows == if thumbCache.hash in disk then disk[thumbCache.hash] else []
    {
      duration := elementDuration;
      inPoint := elementInPoint;
      thumbHeight := ThumbHeight;
      thumbWidth := if negotiatedWidth.Some? then negotiatedWidth.value else FallbackWidth;
      thumbs := map[];
      thumbCache := new ThumbnailCache(source, disk);
      queue := [];
      waitingTimestamp := None;
      seeks := [];
    }

    /** `_startThumbnail`: record the time as waiting, then ask the pipeline to seek there. */
    method StartThumbnail(time: int, seek: int -> bool) returns (accepted: bool)
      modifies this`waitingTimestamp, this`seeks
      ensures waitingTimestamp == Some(time)
      ensures accepted == seek(time)
      ensures seeks == old(seeks) + [time]
    {
      waitingTimestamp := Some(time);
      seeks := seeks + [time];
      accepted := seek(time);
    }

    /** `_nextThumbnail`: start the head; on rejection drop it and try the next. */
    method NextThumbnail(seek: int -> bool)
      modifies this`queue, this`waitingTimestamp, this`seeks
      ensures DriverState() == Advance(old(DriverState()), seek)
      ensures seeks == old(seeks) + Attempts(old(queue), seek)
      decreases |queue|
    {
      if queue != [] {
        ghost var q := queue;
        var accepted := StartThumbnail(queue[0], seek);
        if !accepted {
          queue := queue[1..];
          NextThumbnail(seek);
          assert Attempts(q, seek) == [q[0]] + Attempts(q[1..], seek);
          assert old(seeks) + [q[0]] + Attempts(q[1..], seek) == old(seeks) + Attempts(q, seek);
        }
      }
    }

    /** `_requestThumbnail`: queue a new time; only an idle driver starts seeking. */
    method RequestThumbnail(time: int, seek: int -> bool)
      modifies this`queue, this`waitingTimestamp, this`seeks
      ensures DriverState() == Request(old(DriverState()), time, seek)
      ensures seeks == old(seeks) + RequestAttempts(old(DriverState()), time, seek)
    {
      if time !in queue {
        if queue != [] {
          queue := queue + [time];
        } else {
          queue := queue + [time];
          assert queue == [time];
          NextThumbnail(seek);
        }
      }
    }

    /** `_thumbForTime`: show the cached frame, or request a decode. */
    method ThumbForTime(time: int, seek: int -> bool)
      requires time in thumbs
      modifies this`thumbs, this`queue, this`waitingTimestamp, this`seeks
      ensures thumbCache.Contains(time) ==>
        && thumbs == old(thumbs)[time := SetFromPixbuf(old(thumbs)[time], thumbCache.Get(time).value)]
        && DriverState() == old(DriverState()) && seeks == old(seeks)
      ensures !thumbCache.Contains(time) ==>
        && thumbs == old(thumbs)
        && DriverState() == Request(old(DriverState()), time, seek)
        && seeks == old(seeks) + RequestAttempts(old(DriverState()), time, seek)
    {
      if thumbCache.Contains(time) {
        var pixbuf := thumbCache.Get(time);
        thumbs := thumbs[time := SetFromPixbuf(thumbs[time], pixbuf.value)];
      } else {
        RequestThumbnail(time, seek);
      }
    }

    /**
     * One iteration of `_addThumbnails`'s loop: a new, empty thumbnail for
     * `time` goes into `thumbs`, then `_thumbForTime` fills or requests it.
     */
    method PlaceThumbnail(time: int, seek: int -> bool)
      modifies this`thumbs, this`queue, this`waitingTimestamp, this`seeks
      ensures thumbs == old(thumbs)[time := LaidOut(thumbWidth, thumbHeight, Lookup(thumbCache.rows, time))]
      ensures DriverState() ==
        if SelectTime(thumbCache.rows, time).Some? then old(DriverState()) else Request(old(DriverState()), time, seek)
      ensures seeks == old(seeks) +
        if SelectTime(thumbCache.rows, time).Some? then [] else RequestAttempts(old(DriverState()), time, seek)
    {
      thumbs := thumbs[time := Thumbnail(thumbWidth, thumbHeight, None)];
      ThumbForTime(time, seek);
    }

    /**
     * The `i`-th iteration of `_addThumbnails`'s loop, stated against the
     * strip `times`: `thumbs`, the driver and the seek log go from the layout
     * of `times[..i]` to that of `times[..i + 1]`.
     */
    method PlaceStripTime(ghost origin: Driver, ghost logged: seq<int>, ghost times: seq<int>, ghost i: nat,
                          time: int, seek: int -> bool)
      requires i < |times| && times[i] == time
      requires thumbs == LayOutStrip(times[..i], thumbCache.rows, thumbWidth, thumbHeight)
      requires DriverState() == Populate(origin, times[..i], thumbCache.rows, seek)
      requires seeks == logged + PopulateSeeks(origin, times[..i], thumbCache.rows, seek)
      modifies this`thumbs, this`queue, this`waitingTimestamp, this`seeks
      ensures thumbs == LayOutStrip(times[..i + 1], thumbCache.rows, thumbWidth, thumbHeight)
      ensures DriverState() == Populate(origin, times[..i + 1], thumbCache.rows, seek)
      ensures seeks == logged + PopulateSeeks(origin, times[..i + 1], thumbCache.rows, seek)
    {
      ghost var rows := thumbCache.rows;
      PopulateStep(origin, times, i, rows, seek);
      LayOutStripStep(times, i, rows, thumbWidth, thumbHeight);
      ghost var earlier := PopulateSeeks(origin, times[..i], rows, seek);
      ghost var step := if SelectTime(rows, time).Some? then [] else RequestAttempts(DriverState(), time, seek);
      assert PopulateSeeks(origin, times[..i + 1], rows, seek) == earlier + step;
      PlaceThumbnail(time, seek);
      assert seeks == (logged + earlier) + step;
      assert (logged + earlier) + step == logged + (earlier + step);
    }

    /**
     * `_addThumbnails`, given `Zoomable.pixelToNs(thumb_width + thumb_margin)`:
     * discard the old strip and lay out one thumbnail per whole bucket of the
     * quantized spacing, each filled from the cache or requested.
     */
    method AddThumbnails(unquantized: nat, seek: int -> bool)
      requires Valid()
      modifies this`thumbs, this`queue, this`waitingTimestamp, this`seeks
      ensures Valid()
      ensures thumbs == LayOutStrip(ThumbTimes(duration, QuantizeThumbDuration(unquantized, ThumbPeriod)),
                                    thumbCache.rows, thumbWidth, thumbHeight)
      ensures DriverState() ==
        Populate(old(DriverState()), ThumbTimes(duration, QuantizeThumbDuration(unquantized, ThumbPeriod)), thumbCache.rows, seek)
      ensures seeks == old(seeks) +
        PopulateSeeks(old(DriverState()), ThumbTimes(duration, QuantizeThumbDuration(unquantized, ThumbPeriod)), thumbCache.rows, seek)
    {
      thumbs := map[];
      var thumbDuration := QuantizeThumbDuration(unquantized, ThumbPeriod);
      var numberOfThumbs := duration / thumbDuration;
      ghost var times := ThumbTimes(duration, thumbDuration);
      ghost var rows := thumbCache.rows;
      var currentTime := 0;
      var i := 0;
      while i < numberOfThumbs
        invariant 0 <= i <= numberOfThumbs
        invariant currentTime == i * thumbDuration
        invariant thumbs == LayOutStrip(times[..i], rows, thumbWidth, thumbHeight)
        invariant DriverState() == Populate(old(DriverState()), times[..i], rows, seek)
        invariant seeks == old(seeks) + PopulateSeeks(old(DriverState()), times[..i], rows, seek)
      {
        PlaceStripTime(old(DriverState()), old(seeks), times, i, currentTime, seek);
        NextMultiple(i, thumbDuration);
        currentTime := currentTime + thumbDuration;
        i := i + 1;
      }
      assert times[..i] == times;
      PopulateRequestsMisses(old(DriverState()), times, rows, seek);
    }

    /**
     * `_finishThumbnail`: the frame belongs to the waiting timestamp, whatever
     * time the decoder reported. It is stored in the cache, shown if that
     * time is still laid out, and its request retired before the next starts.
     */
    method FinishThumbnail(pixbuf: Pixbuf, reported: Option<int>, seek: int -> bool)
      requires Valid()
      modifies this`thumbs, this`queue, this`waitingTimestamp, this`seeks, thumbCache
      ensures Valid()
      ensures DriverState() == Complete(old(DriverState()), seek)
      ensures old(waitingTimestamp).Some? ==>
        var t := old(waitingTimestamp).value;
        && thumbCache.rows == UpsertRows(old(thumbCache.rows), t, pixbuf)
        && thumbCache.Get(t) == Success(pixbuf)
        && thumbs == if t in old(thumbs) then old(thumbs)[t := SetFromPixbuf(old(thumbs)[t], pixbuf)] else old(thumbs)
      ensures old(waitingTimestamp).None? ==>
        var t := AutoTime(old(thumbCache.rows));
        && thumbCache.rows == old(thumbCache.rows) + [RowOf(t, pixbuf)]
        && thumbCache.Get(t) == Success(pixbuf)
        && thumbs == old(thumbs)
      ensures thumbCache.hash == old(thumbCache.hash)
      ensures seeks == old(seeks) + if old(queue) == [] then [] else Attempts(old(queue)[1..], seek)
    {
      ghost var before := DriverState();
      var waiting := waitingTimestamp;
      waitingTimestamp := None;
      var time := reported;
      if time != waiting {
        time := waiting;
      }
      if time.Some? {
        var t := time.value;
        StoreFrame(t, pixbuf);
        if t in queue {
          queue := RemoveFirst(queue, t);
        }
      } else {
        // `None` is neither laid out nor queued: only the cache changes.
        StoreUnkeyedFrame(pixbuf);
      }
      assert queue == Retire(before);
      CompleteRetiresHead(before, seek);
      ghost var remaining := queue;
      assert remaining == if old(queue) == [] then [] else old(queue)[1..];
      assert seeks == old(seeks);
      ghost var stored := thumbCache.rows;
      ghost var shown := thumbs;
      NextThumbnail(seek);
      assert seeks == old(seeks) + Attempts(remaining, seek);
      assert thumbCache.rows == stored && thumbs == shown;
    }

    /**
     * The storing half of `_finishThumbnail`: write the frame to the cache
     * under `time`, and show it if `time` is laid out.
     */
    method StoreFrame(time: int, pixbuf: Pixbuf)
      requires thumbCache.Valid()
      modifies this`thumbs, thumbCache
      ensures thumbCache.Valid() && thumbCache.hash == old(thumbCache.hash)
      ensures thumbCache.rows == UpsertRows(old(thumbCache.rows), time, pixbuf)
      ensures thumbCache.Get(time) == Success(pixbuf)
      ensures thumbs == if time in old(thumbs) then old(thumbs)[time := SetFromPixbuf(old(thumbs)[time], pixbuf)] else old(thumbs)
    {
      thumbCache.Set(time, pixbuf);
      if time in thumbs {
        thumbs := thumbs[time := SetFromPixbuf(thumbs[time], pixbuf)];
      }
    }

    /**
     * `thumb_cache[None] = pixbuf`, the store `_finishThumbnail` makes when
     * no seek is outstanding: `DELETE … WHERE time = NULL` matches no row, and
     * SQLite gives the NULL key the next rowid, so the frame is appended under
     * a fresh `Time`.
     */
    method StoreUnkeyedFrame(pixbuf: Pixbuf)
      requires thumbCache.Valid()
      modifies thumbCache
      ensures thumbCache.Valid() && thumbCache.hash == old(thumbCache.hash)
      ensures var t := AutoTime(old(thumbCache.rows));
        && thumbCache.rows == old(thumbCache.rows) + [RowOf(t, pixbuf)]
        && thumbCache.Get(t) == Success(pixbuf)
    {
      var t := AutoTime(thumbCache.rows);
      UpsertAbsentAppends(thumbCache.rows, t, pixbuf);
      thumbCache.Set(t, pixbuf);
    }

    /** `element_changed`: take the element's new duration and in-point. */
    method ElementChanged(newDuration: nat, newInPoint: nat)
      modifies this`duration, this`inPoint
      ensures duration == newDuration && inPoint == newInPoint
    {
      duration := newDuration;
      inPoint := newInPoint;
    }

    /**
     * `element_changed` as written: the duration is stored, then the call
     * for the in-point raises because the element has no such accessor, so
     * `in_point` keeps its old value and no re-layout is scheduled.
     */
    method ElementChangedAsWritten(newDuration: nat)
      modifies this`duration
      ensures duration == newDuration && inPoint == old(inPoint)
    {
      duration := newDuration;
    }
  }
}
