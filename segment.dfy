/** The segment as the log relies on it: a base offset, the records it
    holds, the byte counts of its store and index, and the two limits.
    The store and index files themselves are abstract: a Directory records,
    per base offset, the records a segment at that base has persisted. */
module Segments {
  import opened Common

  /** Bytes of the length prefix in front of each record in the store. */
  const lenWidth: nat := 8

  /** Bytes of one index entry: a 4-byte relative offset and an 8-byte position. */
  const entWidth: nat := 12

  /** Bytes one record takes in the store. */
  function FrameWidth(p: Payload): nat { lenWidth + |p| }

  /** Bytes a store holding these records occupies. */
  function StoreSize(records: seq<Payload>): (n: nat)
    ensures n >= lenWidth * |records|
  {
    if records == [] then 0
    else StoreSize(records[..|records| - 1]) + FrameWidth(records[|records| - 1])
  }

  /** The records found on disk for a base offset: none when no files exist yet. */
  function Stored(stores: map<nat, seq<Payload>>, base: nat): seq<Payload>
  {
    if base in stores then stores[base] else []
  }

  /** The log directory as the segments see it. */
  class Directory {
    /** The records persisted by the segment files of each base offset. */
    var stores: map<nat, seq<Payload>>
    /** Base offsets whose segment files fail every operation (open, write, close, remove). */
    var faulty: set<nat>
    /** Whether removing the whole directory fails. */
    var removeAllFails: bool
    /** Whether the directory exists; removing it takes it away. */
    var present: bool

    constructor (stores: map<nat, seq<Payload>>, faulty: set<nat>, removeAllFails: bool)
      ensures this.stores == stores && this.faulty == faulty && this.removeAllFails == removeAllFails
      ensures present
    {
      this.stores := stores;
      this.faulty := faulty;
      this.removeAllFails := removeAllFails;
      present := true;
    }
  }

  /** Every file operation on s fails: it was closed, or its files are among
      the faulty ones. */
  predicate Fails(s: Segment, faulty: set<nat>)
    reads s`closed
  {
    s.closed || s.baseOffset in faulty
  }

  /** Opening the files of a segment at base fails: the directory is gone,
      or those files are faulty. */
  predicate CannotOpen(d: Directory, base: nat)
    reads d`present, d`faulty
  {
    !d.present || base in d.faulty
  }

  class Segment {
    const dir: Directory
    const baseOffset: nat
    const maxStoreBytes: nat
    const maxIndexBytes: nat
    var nextOffset: nat
    var records: seq<Payload>
    var storeBytes: nat
    var indexBytes: nat
    var closed: bool

    /** Offsets run from the base without gaps, and the byte counts are those
        of the records held. */
    ghost predicate Valid()
      reads this`nextOffset, this`records, this`storeBytes, this`indexBytes
    {
      && nextOffset == baseOffset + |records|
      && storeBytes == StoreSize(records)
      && indexBytes == entWidth * |records|
    }

    /** isMaxed: either limit reached. In a valid segment that is a bound on
        the records it holds: their frames fill the store limit, or their
        index entries fill the index limit. */
    predicate IsMaxed(): (r: bool)
      reads this`storeBytes, this`indexBytes, this`nextOffset, this`records
      ensures Valid() ==> (r <==> StoreSize(records) >= maxStoreBytes || entWidth * |records| >= maxIndexBytes)
    {
      storeBytes >= maxStoreBytes || indexBytes >= maxIndexBytes
    }

    /** The index has no room for one more entry. */
    predicate IndexFull()
      reads this`indexBytes
    {
      indexBytes + entWidth > maxIndexBytes
    }

    /** Every file operation on this segment fails. */
    predicate IoFails()
      reads this`closed, dir`faulty
    {
      Fails(this, dir.faulty)
    }

    /** The offset lies in [baseOffset, nextOffset). */
    predicate Contains(off: nat)
      reads this`nextOffset
    {
      baseOffset <= off < nextOffset
    }

    constructor (dir: Directory, base: nat, cfg: Config, stored: seq<Payload>)
      ensures Valid() && !closed
      ensures this.dir == dir && baseOffset == base && records == stored
      ensures maxStoreBytes == cfg.maxStoreBytes && maxIndexBytes == cfg.maxIndexBytes
    {
      this.dir := dir;
      baseOffset := base;
      maxStoreBytes := cfg.maxStoreBytes;
      maxIndexBytes := cfg.maxIndexBytes;
      nextOffset := base + |stored|;
      records := stored;
      storeBytes := StoreSize(stored);
      indexBytes := entWidth * |stored|;
      closed := false;
    }

    /** Assigns nextOffset to the record and stores it; io.EOF when the index is full. */
    method Append(p: Payload) returns (r: Result<nat>)
      requires Valid()
      modifies this`nextOffset, this`records, this`storeBytes, this`indexBytes, dir`stores
      ensures Valid() && closed == old(closed)
      ensures r.Ok? <==> !old(IoFails()) && !old(IndexFull())
      ensures old(IoFails()) ==> r == Err(SegmentIOError(baseOffset))
      ensures !old(IoFails()) && old(IndexFull()) ==> r == Err(EOF)
      ensures r.Err? ==> unchanged(this, dir)
      ensures r.Ok? ==> r.value == old(nextOffset) && records == old(records) + [p]
      ensures r.Ok? ==> dir.stores == old(dir.stores)[baseOffset := records]
    {
      if closed || baseOffset in dir.faulty {
        return Err(SegmentIOError(baseOffset));
      }
      if indexBytes + entWidth > maxIndexBytes {
        return Err(EOF);
      }
      var cur := nextOffset;
      assert (records + [p])[..|records|] == records;
      records := records + [p];
      storeBytes := storeBytes + FrameWidth(p);
      indexBytes := indexBytes + entWidth;
      nextOffset := nextOffset + 1;
      dir.stores := dir.stores[baseOffset := records];
      r := Ok(cur);
    }

    /** The record at an absolute offset, if this segment holds it. */
    method Read(off: nat) returns (r: Result<Record>)
      requires Valid()
      ensures IoFails() ==> r == Err(SegmentIOError(baseOffset))
      ensures !IoFails() && !Contains(off) ==> r == Err(EOF)
      ensures !IoFails() && Contains(off) ==> r == Ok(Record(records[off - baseOffset], off))
    {
      if closed || baseOffset in dir.faulty {
        return Err(SegmentIOError(baseOffset));
      }
      if off < baseOffset || nextOffset <= off {
        return Err(EOF);
      }
      r := Ok(Record(records[off - baseOffset], off));
    }

    /** Closes the store and index files; fails on a closed or faulty segment. */
    method Close() returns (err: Option<Error>)
      requires Valid()
      modifies this`closed
      ensures err.Some? <==> old(IoFails())
      ensures err.Some? ==> err == Some(SegmentIOError(baseOffset)) && unchanged(this)
      ensures err.None? ==> closed
    {
      if closed || baseOffset in dir.faulty {
        return Some(SegmentIOError(baseOffset));
      }
      closed := true;
      err := None;
    }

    /** Closes the segment and deletes its store and index files. */
    method Remove() returns (err: Option<Error>)
      requires Valid()
      modifies this`closed, dir`stores
      ensures err.Some? <==> old(IoFails())
      ensures err.Some? ==> err == Some(SegmentIOError(baseOffset)) && unchanged(this, dir)
      ensures err.None? ==> closed && dir.stores == old(dir.stores) - {baseOffset}
    {
      if closed || baseOffset in dir.faulty {
        return Some(SegmentIOError(baseOffset));
      }
      closed := true;
      dir.stores := dir.stores - {baseOffset};
      err := None;
    }
  }

  /** newSegment(dir, base, cfg): opens (creating when absent) the files of
      the segment at base and resumes from the records they hold. */
  method OpenSegment(dir: Directory, base: nat, cfg: Config) returns (s: Segment?, err: Option<Error>)
    modifies dir`stores
    ensures err.Some? <==> CannotOpen(dir, base)
    ensures err.Some? ==> s == null && err == Some(SegmentIOError(base)) && dir.stores == old(dir.stores)
    ensures err.None? ==> s != null && fresh(s) && s.Valid() && !s.closed
    ensures err.None? ==> s.dir == dir && s.baseOffset == base
    ensures err.None? ==> s.maxStoreBytes == cfg.maxStoreBytes && s.maxIndexBytes == cfg.maxIndexBytes
    ensures err.None? ==> s.records == Stored(old(dir.stores), base)
    ensures err.None? ==> dir.stores == old(dir.stores)[base := s.records]
  {
    if !dir.present || base in dir.faulty {
      return null, Some(SegmentIOError(base));
    }
    var stored := Stored(dir.stores, base);
    dir.stores := dir.stores[base := stored];
    s := new Segment(dir, base, cfg, stored);
    err := None;
  }

  /** When the index limit is a whole number of entries, an index too full for
      another entry is also at its limit, so a segment that refuses an append
      with io.EOF reports isMaxed. */
  lemma FullIndexIsMaxed(s: Segment)
    requires s.Valid() && s.maxIndexBytes % entWidth == 0
    ensures s.IndexFull() ==> s.IsMaxed()
  {
    var n := |s.records|;
    var m := s.maxIndexBytes / entWidth;
    assert s.maxIndexBytes == entWidth * m;
    if s.IndexFull() {
      assert entWidth * n + entWidth > entWidth * m;
      assert n + 1 > m;
      assert entWidth * n >= entWidth * m;
    }
  }

  /** A store of n copies of one record holds n frames of it. */
  lemma {:induction false} StoreSizeCopies(n: nat, p: Payload)
    ensures StoreSize(seq(n, _ => p)) == n * FrameWidth(p)
  {
    if n > 0 {
      StoreSizeCopies(n - 1, p);
      assert seq(n, _ => p)[..n - 1] == seq(n - 1, _ => p);
    }
  }

  /** "hello world", the value segment_test.go appends. */
  const helloWorld: Payload := [104, 101, 108, 108, 111, 32, 119, 111, 114, 108, 100]

  /** The loop of TestSegment: n appends of p to an empty segment with room
      for them return consecutive offsets from the base, and each reads back p. */
  method AppendCopies(s: Segment, p: Payload, n: nat) returns (offsets: seq<nat>, values: seq<Payload>)
    requires s.Valid() && !s.closed && s.baseOffset !in s.dir.faulty
    requires s.records == [] && entWidth * n <= s.maxIndexBytes
    modifies s`nextOffset, s`records, s`storeBytes, s`indexBytes, s.dir`stores
    ensures s.Valid() && !s.closed
    ensures |s.records| == |offsets| == |values| == n
    ensures forall j :: 0 <= j < n ==> s.records[j] == p && values[j] == p
    ensures forall j :: 0 <= j < n ==> offsets[j] == s.baseOffset + j
    ensures n > 0 ==> s.dir.stores == old(s.dir.stores)[s.baseOffset := s.records]
    ensures n == 0 ==> s.dir.stores == old(s.dir.stores)
  {
    offsets, values := [], [];
    var i := 0;
    while i < n
      invariant 0 <= i <= n
      invariant i > 0 ==> s.dir.stores == old(s.dir.stores)[s.baseOffset := s.records]
      invariant i == 0 ==> s.dir.stores == old(s.dir.stores)
      invariant s.Valid() && !s.closed
      invariant |s.records| == |offsets| == |values| == i
      invariant forall j :: 0 <= j < i ==> s.records[j] == p && values[j] == p
      invariant forall j :: 0 <= j < i ==> offsets[j] == s.baseOffset + j
    {
      var off := s.Append(p);
      var got := s.Read(off.value);
      offsets, values := offsets + [off.value], values + [got.value.value];
      i := i + 1;
    }
  }

  /** The first half of TestSegment: a fresh segment at base 16 starts at
      offset 16 and is not maxed; three appends return 16, 17, 18 and read
      back their value; the fourth fails with io.EOF and the segment is maxed.
      The directory is left holding the three records. */
  method FillScenario() returns (dir: Directory, nextAtOpen: nat, maxedAtOpen: bool,
                                 offsets: seq<nat>, values: seq<Payload>,
                                 fourth: Result<nat>, maxedWhenFull: bool)
    ensures nextAtOpen == 16 && !maxedAtOpen
    ensures offsets == [16, 17, 18] && values == [helloWorld, helloWorld, helloWorld]
    ensures fourth == Err(EOF) && maxedWhenFull
    ensures dir.stores == map[16 := [helloWorld, helloWorld, helloWorld]]
    ensures fresh(dir) && dir.faulty == {} && !dir.removeAllFails && dir.present
  {
    dir := new Directory(map[], {}, false);
    var want := helloWorld;
    var cfg := Config(1024, entWidth * 3, 0);
    var s, err := OpenSegment(dir, 16, cfg);
    nextAtOpen, maxedAtOpen := s.nextOffset, s.IsMaxed();

    offsets, values := AppendCopies(s, want, 3);
    assert offsets == [16, 17, 18];
    assert values == [want, want, want];
    assert s.records == [want, want, want];

    fourth := s.Append(want);
    maxedWhenFull := s.IsMaxed();
  }

  /** The second half of TestSegment: reopened over the three stored records
      with a store limit of three values the segment is maxed at once; after
      Remove a new segment at 16 is empty and not maxed. */
  method ReopenScenario(dir: Directory) returns (maxedOnReopen: bool, removeErr: Option<Error>,
                                                 maxedAfterRemove: bool)
    requires dir.stores == map[16 := [helloWorld, helloWorld, helloWorld]]
    requires dir.faulty == {} && !dir.removeAllFails && dir.present
    modifies dir`stores
    ensures maxedOnReopen
    ensures removeErr.None? && !maxedAfterRemove
  {
    var want := helloWorld;
    var cfg := Config(|want| * 3, 1024, 0);
    var reopened, err := OpenSegment(dir, 16, cfg);
    StoreSizeCopies(3, want);
    maxedOnReopen := reopened.IsMaxed();

    removeErr := reopened.Remove();
    var fresh16, err2 := OpenSegment(dir, 16, cfg);
    maxedAfterRemove := fresh16.IsMaxed();
  }

  /** An index limit that is not a multiple of entWidth: 85 empty records
      take 1020 of 1024 index bytes and 680 of 1024 store bytes, so the
      index has no room for an 86th entry while neither limit is reached.
      The segment is not maxed, so the log would not rotate away from it,
      and every further append fails with io.EOF. */
  method IndexStallScenario() returns (full: bool, maxed: bool, next: Result<nat>, maxedAfter: bool)
    ensures full && !maxed
    ensures next == Err(EOF) && !maxedAfter
  {
    var dir := new Directory(map[], {}, false);
    var s := new Segment(dir, 0, Config(1024, 1024, 0), seq(85, _ => []));
    StoreSizeCopies(85, []);
    full, maxed := s.IndexFull(), s.IsMaxed();
    next := s.Append([]);
    maxedAfter := s.IsMaxed();
  }

  /** TestSegment from start to end: both halves over one directory. */
  method SegmentTestScenario() returns (nextAtOpen: nat, maxedAtOpen: bool,
                                        offsets: seq<nat>, values: seq<Payload>,
                                        fourth: Result<nat>, maxedWhenFull: bool,
                                        maxedOnReopen: bool, removeErr: Option<Error>,
                                        maxedAfterRemove: bool)
    ensures nextAtOpen == 16 && !maxedAtOpen
    ensures offsets == [16, 17, 18] && values == [helloWorld, helloWorld, helloWorld]
    ensures fourth == Err(EOF) && maxedWhenFull
    ensures maxedOnReopen
    ensures removeErr.None? && !maxedAfterRemove
  {
    var dir;
    dir, nextAtOpen, maxedAtOpen, offsets, values, fourth, maxedWhenFull := FillScenario();
    maxedOnReopen, removeErr, maxedAfterRemove := ReopenScenario(dir);
  }
}
