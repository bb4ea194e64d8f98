/** internal/log/log.go: the Log keeps an ordered list of segments and an
    active segment, routes appends to the active segment, rotates when it is
    maxed, resolves reads by scanning offset ranges, and truncates by base
    offset. The RWMutex is left out: every operation runs alone. */
module CommitLog {
  import opened Common
  import opened FileNames
  import opened Segments

  /** The limit NewLog puts in place of a zero MaxStoreBytes or MaxIndexBytes. */
  const defaultMaxBytes: nat := 1024

  /** NewLog's configuration defaults. */
  function WithDefaults(cfg: Config): (r: Config)
    ensures r.maxStoreBytes > 0 && r.maxIndexBytes > 0
    ensures r.initialOffset == cfg.initialOffset
    ensures cfg.maxStoreBytes != 0 ==> r.maxStoreBytes == cfg.maxStoreBytes
    ensures cfg.maxIndexBytes != 0 ==> r.maxIndexBytes == cfg.maxIndexBytes
    ensures cfg.maxStoreBytes == 0 ==> r.maxStoreBytes == defaultMaxBytes
    ensures cfg.maxIndexBytes == 0 ==> r.maxIndexBytes == defaultMaxBytes
  {
    var store := if cfg.maxStoreBytes == 0 then defaultMaxBytes else cfg.maxStoreBytes;
    var index := if cfg.maxIndexBytes == 0 then defaultMaxBytes else cfg.maxIndexBytes;
    cfg.(maxStoreBytes := store, maxIndexBytes := index)
  }

  /** The base offsets of the segments, in list order. */
  function BaseOffsets(ss: seq<Segment>): seq<nat>
  {
    seq(|ss|, i requires 0 <= i < |ss| => ss[i].baseOffset)
  }

  /** Every segment of ss is well formed. */
  ghost predicate AllValid(ss: seq<Segment>)
    reads ss`nextOffset, ss`records, ss`storeBytes, ss`indexBytes
  {
    forall i :: 0 <= i < |ss| ==> ss[i].Valid()
  }

  /** A segment belongs to a log with this directory and configuration. */
  ghost predicate Fits(s: Segment, d: Directory, cfg: Config)
    reads s`nextOffset, s`records, s`storeBytes, s`indexBytes
  {
    s.Valid() && s.dir == d
    && s.maxStoreBytes == cfg.maxStoreBytes && s.maxIndexBytes == cfg.maxIndexBytes
  }

  /** Every segment of ss belongs to a log with this directory and configuration. */
  ghost predicate AllFit(ss: seq<Segment>, d: Directory, cfg: Config)
    reads ss`nextOffset, ss`records, ss`storeBytes, ss`indexBytes
  {
    forall i :: 0 <= i < |ss| ==> Fits(ss[i], d, cfg)
  }

  /** The segment at position i of ss. Distinct is stated through it so that
      its pairwise facts come into play only where a proof names them. */
  function At(ss: seq<Segment>, i: nat): Segment
    requires i < |ss|
  {
    ss[i]
  }

  /** No segment is listed twice. */
  predicate Distinct(ss: seq<Segment>)
  {
    forall i, j {:trigger At(ss, i), At(ss, j)} :: 0 <= i < j < |ss| ==> At(ss, i) != At(ss, j)
  }

  /** Listing a segment not yet listed keeps the list free of repeats. */
  lemma DistinctSnoc(ss: seq<Segment>, x: Segment)
    requires Distinct(ss) && x !in ss
    ensures Distinct(ss + [x])
  {
    var r := ss + [x];
    forall i, j | 0 <= i < j < |r| ensures At(r, i) != At(r, j) {
      if j < |ss| {
        assert At(ss, i) != At(ss, j);
      } else {
        assert r[i] == ss[i];
      }
    }
  }

  /** Segment i's range ends at or before segment j's base. */
  ghost predicate Precedes(ss: seq<Segment>, i: nat, j: nat)
    requires i < |ss| && j < |ss|
    reads ss`nextOffset
  {
    ss[i].nextOffset <= ss[j].baseOffset
  }

  /** Each segment's range ends at or before the next one's base. */
  ghost predicate Ordered(ss: seq<Segment>)
    reads ss`nextOffset
  {
    forall i, j :: 0 <= i < j < |ss| ==> Precedes(ss, i, j)
  }

  /** The ends of the segments' ranges, in list order. */
  ghost function NextOffsets(ss: seq<Segment>): (r: seq<nat>)
    reads ss
    ensures |r| == |ss| && forall j :: 0 <= j < |ss| ==> r[j] == ss[j].nextOffset
  {
    seq(|ss|, j reads ss requires 0 <= j < |ss| => ss[j].nextOffset)
  }

  /** Range i, from bases[i] to nexts[i], ends at or before base j. */
  predicate RangeBefore(bases: seq<nat>, nexts: seq<nat>, i: nat, j: nat)
    requires i < |nexts| && j < |bases|
  {
    nexts[i] <= bases[j]
  }

  /** Ordered, stated on base offsets and range ends alone. */
  predicate RangesOrdered(bases: seq<nat>, nexts: seq<nat>)
  {
    |bases| == |nexts| && forall i, j :: 0 <= i < j < |bases| ==> RangeBefore(bases, nexts, i, j)
  }

  /** Ordered, restated on values that do not depend on the heap. */
  lemma OrderedRanges(ss: seq<Segment>)
    requires Ordered(ss)
    ensures RangesOrdered(BaseOffsets(ss), NextOffsets(ss))
  {
    forall i, j | 0 <= i < j < |ss| ensures RangeBefore(BaseOffsets(ss), NextOffsets(ss), i, j) {
      assert Precedes(ss, i, j);
    }
  }

  /** The index Log.Read's scan stops at: the first segment, in list order,
      whose range holds the offset. */
  function Locate(ss: seq<Segment>, off: nat): (r: Option<nat>)
    reads ss`nextOffset
    ensures r.Some? ==> r.value < |ss| && ss[r.value].Contains(off)
    ensures r.Some? ==> forall j :: 0 <= j < r.value ==> !ss[j].Contains(off)
    ensures r.None? ==> forall j :: 0 <= j < |ss| ==> !ss[j].Contains(off)
    decreases |ss|
  {
    if ss == [] then None
    else if ss[0].Contains(off) then Some(0)
    else
      match Locate(ss[1..], off)
      case None => None
      case Some(k) => Some(k + 1)
  }

  /** In an ordered list at most one segment holds an offset, so the scan
      finds exactly that one. */
  lemma OrderedLocate(ss: seq<Segment>, i: nat, off: nat)
    requires Ordered(ss) && i < |ss| && ss[i].Contains(off)
    ensures Locate(ss, off) == Some(i)
  {
    forall j | 0 <= j < i ensures !ss[j].Contains(off) {
      assert Precedes(ss, j, i);
    }
  }

  /** Listing one more segment after the others leaves an offset that an
      earlier segment holds resolved where it was. */
  lemma {:induction false} LocateSnoc(ss: seq<Segment>, x: Segment, off: nat)
    requires Locate(ss, off).Some?
    ensures Locate(ss + [x], off) == Locate(ss, off)
    decreases |ss|
  {
    if !ss[0].Contains(off) {
      assert (ss + [x])[1..] == ss[1..] + [x];
      LocateSnoc(ss[1..], x, off);
    }
  }

  /** Below the first base of an ordered list no segment holds the offset. */
  lemma {:induction false} BelowLowestNotFound(ss: seq<Segment>, off: nat)
    requires Ordered(ss) && AllValid(ss) && |ss| > 0 && off < ss[0].baseOffset
    ensures Locate(ss, off).None?
  {
    forall j | 0 < j < |ss| ensures !ss[j].Contains(off) {
      assert Precedes(ss, 0, j);
      assert ss[0].Valid();
    }
  }

  /** At or above the last segment's nextOffset no segment of an ordered
      list holds the offset. */
  lemma {:induction false} AboveHighestNotFound(ss: seq<Segment>, off: nat)
    requires Ordered(ss) && AllValid(ss) && |ss| > 0 && off >= ss[|ss| - 1].nextOffset
    ensures Locate(ss, off).None?
  {
    var last := |ss| - 1;
    forall j | 0 <= j < last ensures !ss[j].Contains(off) {
      assert Precedes(ss, j, last);
      assert ss[last].Valid();
    }
  }

  /** The segments among the first n whose base is at least lowest, in order. */
  function KeptPrefix(ss: seq<Segment>, n: nat, lowest: nat): (r: seq<Segment>)
    requires n <= |ss|
    ensures |r| <= n
  {
    if n == 0 then []
    else if ss[n - 1].baseOffset >= lowest then KeptPrefix(ss, n - 1, lowest) + [ss[n - 1]]
    else KeptPrefix(ss, n - 1, lowest)
  }

  /** The segments Truncate keeps: those whose base is at least lowest, in order. */
  function Kept(ss: seq<Segment>, lowest: nat): (r: seq<Segment>)
    ensures |r| <= |ss|
  {
    KeptPrefix(ss, |ss|, lowest)
  }

  /** Truncate keeps exactly the segments whose base is at least lowest. */
  lemma {:induction false} KeptMembers(ss: seq<Segment>, n: nat, lowest: nat)
    requires n <= |ss|
    ensures forall i :: 0 <= i < |KeptPrefix(ss, n, lowest)| ==>
      KeptPrefix(ss, n, lowest)[i].baseOffset >= lowest
      && exists m :: 0 <= m < n && ss[m] == KeptPrefix(ss, n, lowest)[i]
    ensures forall m :: 0 <= m < n && ss[m].baseOffset >= lowest ==> ss[m] in KeptPrefix(ss, n, lowest)
  {
    if n > 0 {
      KeptMembers(ss, n - 1, lowest);
      var k0 := KeptPrefix(ss, n - 1, lowest);
      var k := KeptPrefix(ss, n, lowest);
      forall i | 0 <= i < |k| ensures k[i].baseOffset >= lowest && exists m :: 0 <= m < n && ss[m] == k[i] {
        if i < |k0| {
          assert k[i] == k0[i];
          var m :| 0 <= m < n - 1 && ss[m] == k0[i];
          assert ss[m] == k[i];
        } else {
          assert ss[n - 1] == k[i];
        }
      }
      forall m | 0 <= m < n && ss[m].baseOffset >= lowest ensures ss[m] in k {
        if m < n - 1 {
          assert ss[m] in k0;
        } else {
          assert k[|k| - 1] == ss[n - 1];
        }
      }
    }
  }

  /** Keeping a subsequence keeps ranges ordered. */
  lemma {:induction false} KeptOrdered(ss: seq<Segment>, n: nat, lowest: nat)
    requires n <= |ss| && Ordered(ss)
    ensures Ordered(KeptPrefix(ss, n, lowest))
  {
    if n > 0 {
      KeptOrdered(ss, n - 1, lowest);
      KeptMembers(ss, n - 1, lowest);
      var k0 := KeptPrefix(ss, n - 1, lowest);
      var x := ss[n - 1];
      if x.baseOffset >= lowest {
        forall i | 0 <= i < |k0| ensures k0[i].nextOffset <= x.baseOffset {
          var m :| 0 <= m < n - 1 && ss[m] == k0[i];
          assert Precedes(ss, m, n - 1);
        }
        var r := k0 + [x];
        assert KeptPrefix(ss, n, lowest) == r;
        forall i, j | 0 <= i < j < |r| ensures Precedes(r, i, j) {
          assert r[i] == k0[i];
          if j < |k0| {
            assert r[j] == k0[j];
            assert Precedes(k0, i, j);
          }
        }
      }
    }
  }

  /** Keeping a subsequence keeps every segment fitting the log. */
  lemma KeptFit(ss: seq<Segment>, lowest: nat, d: Directory, cfg: Config)
    requires AllFit(ss, d, cfg)
    ensures AllFit(Kept(ss, lowest), d, cfg)
  {
    var k := Kept(ss, lowest);
    KeptMembers(ss, |ss|, lowest);
    forall i | 0 <= i < |k| ensures Fits(k[i], d, cfg) {
      var m :| 0 <= m < |ss| && ss[m] == k[i];
    }
  }

  /** Keeping a subsequence keeps segments distinct. */
  lemma {:induction false} KeptDistinct(ss: seq<Segment>, n: nat, lowest: nat)
    requires n <= |ss| && Distinct(ss)
    ensures Distinct(KeptPrefix(ss, n, lowest))
  {
    if n > 0 {
      KeptDistinct(ss, n - 1, lowest);
      KeptMembers(ss, n - 1, lowest);
      var k0 := KeptPrefix(ss, n - 1, lowest);
      var x := ss[n - 1];
      if x.baseOffset >= lowest {
        forall i | 0 <= i < |k0| ensures k0[i] != x {
          var m :| 0 <= m < n - 1 && ss[m] == k0[i];
          assert At(ss, m) != At(ss, n - 1);
        }
        var r := k0 + [x];
        assert KeptPrefix(ss, n, lowest) == r;
        forall i, j | 0 <= i < j < |r| ensures At(r, i) != At(r, j) {
          assert r[i] == k0[i];
          if j < |k0| {
            assert At(k0, i) != At(k0, j);
          }
        }
      }
    }
  }

  /** In an ordered list the last segment has the highest base. */
  lemma LastBaseIsHighest(ss: seq<Segment>)
    requires Ordered(ss) && AllValid(ss) && |ss| > 0
    ensures forall i :: 0 <= i < |ss| ==> ss[i].baseOffset <= ss[|ss| - 1].baseOffset
  {
    forall i | 0 <= i < |ss| - 1 ensures ss[i].baseOffset <= ss[|ss| - 1].baseOffset {
      assert Precedes(ss, i, |ss| - 1);
      assert ss[i].Valid();
    }
  }

  /** Truncating an ordered list whose last segment is the active one either
      keeps the active segment last or keeps nothing: the active segment has
      the largest base, so it is dropped only when every segment is. */
  lemma TruncateKeepsActiveOrEmpties(ss: seq<Segment>, lowest: nat)
    requires Ordered(ss) && AllValid(ss) && |ss| > 0
    ensures var k := Kept(ss, lowest);
      k == [] || k[|k| - 1] == ss[|ss| - 1]
  {
    var last := ss[|ss| - 1];
    var k := Kept(ss, lowest);
    if last.baseOffset < lowest {
      LastBaseIsHighest(ss);
      KeptMembers(ss, |ss|, lowest);
    } else {
      assert k == KeptPrefix(ss, |ss| - 1, lowest) + [last];
    }
  }

  /** Truncate removes a segment by its base alone: an offset at or above
      lowest that a segment with a smaller base holds is no longer held by
      any kept segment, so Read no longer finds it. */
  lemma TruncateDropsStraddledOffsets(ss: seq<Segment>, lowest: nat, i: nat, off: nat)
    requires Ordered(ss) && i < |ss| && ss[i].baseOffset < lowest <= off && ss[i].Contains(off)
    ensures Locate(Kept(ss, lowest), off).None?
  {
    var k := Kept(ss, lowest);
    KeptMembers(ss, |ss|, lowest);
    forall j | 0 <= j < |k| ensures !k[j].Contains(off) {
      var m :| 0 <= m < |ss| && ss[m] == k[j];
      if m < i {
        assert Precedes(ss, m, i);
      } else if m > i {
        assert Precedes(ss, i, m);
      }
    }
  }

  /** For each segment, whether Truncate's attempt to remove it fails: its base
      is below lowest and its files cannot be touched. */
  ghost function RemoveFailures(ss: seq<Segment>, lowest: nat, faulty: set<nat>): (r: seq<bool>)
    reads ss`closed
    ensures |r| == |ss|
    ensures forall j :: 0 <= j < |ss| ==> r[j] == (ss[j].baseOffset < lowest && Fails(ss[j], faulty))
  {
    if ss == [] then []
    else [ss[0].baseOffset < lowest && Fails(ss[0], faulty)] + RemoveFailures(ss[1..], lowest, faulty)
  }

  /** Each segment's closed flag, in list order. */
  ghost function ClosedFlags(ss: seq<Segment>): (r: seq<bool>)
    reads ss`closed
    ensures |r| == |ss| && forall j :: 0 <= j < |ss| ==> r[j] == ss[j].closed
  {
    if ss == [] then [] else [ss[0].closed] + ClosedFlags(ss[1..])
  }

  /** Every segment of ss whose base is below lowest is closed and its
      files are gone from the directory. */
  ghost predicate RemovedBelow(ss: seq<Segment>, lowest: nat, stores: map<nat, seq<Payload>>)
    reads ss`closed
  {
    forall j :: 0 <= j < |ss| && ss[j].baseOffset < lowest ==> ss[j].closed && ss[j].baseOffset !in stores
  }

  /** The bases, below lowest, of the segments of ss: the files Truncate deletes. */
  function BasesBelow(ss: seq<Segment>, lowest: nat): (r: set<nat>)
    ensures forall b :: b in r ==> b < lowest
  {
    if ss == [] then {}
    else
      var last := ss[|ss| - 1];
      BasesBelow(ss[..|ss| - 1], lowest) + (if last.baseOffset < lowest then {last.baseOffset} else {})
  }

  /** The persisted records once the files of the segments of ss below
      lowest are deleted, one segment after another. */
  function StoresWithout(stores: map<nat, seq<Payload>>, ss: seq<Segment>, lowest: nat): map<nat, seq<Payload>>
  {
    if ss == [] then stores
    else
      var rest := StoresWithout(stores, ss[..|ss| - 1], lowest);
      var last := ss[|ss| - 1];
      if last.baseOffset < lowest then rest - {last.baseOffset} else rest
  }

  /** StoresWithout over a prefix one segment longer. */
  lemma StoresWithoutPrefix(stores: map<nat, seq<Payload>>, ss: seq<Segment>, i: nat, lowest: nat)
    requires i < |ss|
    ensures StoresWithout(stores, ss[..i + 1], lowest)
      == if ss[i].baseOffset < lowest then StoresWithout(stores, ss[..i], lowest) - {ss[i].baseOffset}
         else StoresWithout(stores, ss[..i], lowest)
  {
    assert ss[..i + 1][..i] == ss[..i];
  }

  /** Deleting the segments' files one by one removes exactly the bases
      below lowest from the persisted records. */
  lemma {:induction false} StoresWithoutIsDifference(stores: map<nat, seq<Payload>>, ss: seq<Segment>, lowest: nat)
    ensures StoresWithout(stores, ss, lowest) == stores - BasesBelow(ss, lowest)
  {
    if ss == [] {
      StoresMinusNothing(stores);
    } else {
      var init := ss[..|ss| - 1];
      var last := ss[|ss| - 1];
      StoresWithoutIsDifference(stores, init, lowest);
      if last.baseOffset < lowest {
        assert (stores - BasesBelow(init, lowest)) - {last.baseOffset}
          == stores - (BasesBelow(init, lowest) + {last.baseOffset});
      } else {
        assert BasesBelow(ss, lowest) == BasesBelow(init, lowest) + {};
      }
    }
  }

  /** Deleting no files leaves the directory as it was. */
  lemma StoresMinusNothing(stores0: map<nat, seq<Payload>>)
    ensures stores0 - {} == stores0
  {
  }

  /** flags[j] says whether removing ss[j] fails: it lies below lowest and
      was closed or its files are faulty. Base offsets never change, so this
      depends on no object state. */
  predicate FailureFlags(flags: seq<bool>, ss: seq<Segment>, lowest: nat, closed: seq<bool>, faulty: set<nat>)
  {
    |flags| == |ss| == |closed| &&
    forall j :: 0 <= j < |ss| ==> flags[j] == (ss[j].baseOffset < lowest && (closed[j] || ss[j].baseOffset in faulty))
  }

  /** The index of the first true flag. */
  function FirstTrue(flags: seq<bool>): (r: Option<nat>)
    ensures r.Some? ==> r.value < |flags| && flags[r.value]
    ensures r.Some? ==> forall j :: 0 <= j < r.value ==> !flags[j]
    ensures r.None? ==> forall j :: 0 <= j < |flags| ==> !flags[j]
    decreases |flags|
  {
    if flags == [] then None
    else if flags[0] then Some(0)
    else
      match FirstTrue(flags[1..])
      case None => None
      case Some(k) => Some(k + 1)
  }

  /** A true flag with only false ones before it is the first. */
  lemma FirstTrueAt(flags: seq<bool>, i: nat)
    requires i < |flags| && flags[i] && forall j :: 0 <= j < i ==> !flags[j]
    ensures FirstTrue(flags) == Some(i)
  {
  }

  /** With no true flag there is no first one. */
  lemma FirstTrueNone(flags: seq<bool>)
    requires forall j :: 0 <= j < |flags| ==> !flags[j]
    ensures FirstTrue(flags) == None
  {
  }

  /** For each segment, whether Close's attempt to close it fails. */
  ghost function CloseFailures(ss: seq<Segment>, faulty: set<nat>): (r: seq<bool>)
    reads ss`closed
    ensures |r| == |ss|
    ensures forall j :: 0 <= j < |ss| ==> r[j] == Fails(ss[j], faulty)
  {
    if ss == [] then [] else [Fails(ss[0], faulty)] + CloseFailures(ss[1..], faulty)
  }

  /** The number of leading bases whose segment files can be opened. */
  function OpenablePrefix(bases: seq<nat>, faulty: set<nat>): (k: nat)
    ensures k <= |bases|
    ensures forall j :: 0 <= j < k ==> bases[j] !in faulty
    ensures k < |bases| ==> bases[k] in faulty
    decreases |bases|
  {
    if bases == [] || bases[0] in faulty then 0
    else 1 + OpenablePrefix(bases[1..], faulty)
  }

  /** os.ReadDir on the log directory: the listing while the directory
      exists, an error once it has been removed. */
  function ReadDir(present: bool, listing: Result<seq<string>>): (r: Result<seq<string>>)
    ensures r.Ok? ==> present && r == listing
    ensures !present ==> r == Err(DirIOError)
  {
    if present then listing else Err(DirIOError)
  }

  /** The sorted base offsets of the store files in a directory listing, or
      the error from listing or from parsing a name (log.go:38-57). */
  method ListedBases(files: Result<seq<string>>) returns (r: Result<seq<nat>>)
    ensures files.Err? ==> r == Err(files.error)
    ensures files.Ok? && StoreOffsets(files.value).Err? ==> r == Err(StoreOffsets(files.value).error)
    ensures files.Ok? && StoreOffsets(files.value).Ok? ==> r == Ok(SortAscending(StoreOffsets(files.value).value))
  {
    if files.Err? {
      return Err(files.error);
    }
    var parsed := ScanStoreOffsets(files.value);
    if parsed.Err? {
      return Err(parsed.error);
    }
    r := Ok(SortAscending(parsed.value));
  }

  /** The bases setup opens, in order: the sorted store offsets, or the
      initial offset alone when there are none and the log has no segment. */
  function Planned(existing: nat, sorted: seq<nat>, initial: nat): (r: seq<nat>)
    ensures sorted != [] ==> r == sorted
    ensures existing == 0 ==> r != []
  {
    if existing == 0 && sorted == [] then [initial] else sorted
  }

  /** What setup does with a directory listing, as values: the bases of
      the segments it opens, in order, and the error it returns. */
  datatype SetupOutcome = SetupOutcome(bases: seq<nat>, err: Option<Error>)

  /** setup's plan for a listing, given how many segments the log already has,
      the initial offset and the bases whose files cannot be opened: a listing
      or parse error opens nothing; otherwise the planned bases are opened in
      order up to the first that fails. */
  function SetupPlan(files: Result<seq<string>>, existing: nat, initial: nat, faulty: set<nat>): (r: SetupOutcome)
    ensures forall j :: 0 <= j < |r.bases| ==> r.bases[j] !in faulty
    ensures r.bases != [] || r.err.None? ==> files.Ok? && StoreOffsets(files.value).Ok?
  {
    match files
    case Err(e) => SetupOutcome([], Some(e))
    case Ok(names) =>
      match StoreOffsets(names)
      case Err(e) => SetupOutcome([], Some(e))
      case Ok(offs) =>
        var wanted := Planned(existing, SortAscending(offs), initial);
        var k := OpenablePrefix(wanted, faulty);
        SetupOutcome(wanted[..k], if k < |wanted| then Some(SegmentIOError(wanted[k])) else None)
  }

  /** setup opens segments in ascending base order, so the last one opened,
      which becomes active, has the largest base. */
  lemma SetupPlanSorted(files: Result<seq<string>>, existing: nat, initial: nat, faulty: set<nat>)
    ensures SortedAsc(SetupPlan(files, existing, initial, faulty).bases)
  {
    if files.Ok? && StoreOffsets(files.value).Ok? {
      var wanted := Planned(existing, SortAscending(StoreOffsets(files.value).value), initial);
      SortedPrefix(wanted, OpenablePrefix(wanted, faulty));
    }
  }

  /** When setup succeeds on a listing with store files, it has opened one
      segment per store file, and the last one, which becomes active, has
      the largest base of them. */
  lemma SetupPlanCoversStoreFiles(files: Result<seq<string>>, existing: nat, initial: nat, faulty: set<nat>)
    requires files.Ok? && StoreOffsets(files.value).Ok? && StoreOffsets(files.value).value != []
    requires SetupPlan(files, existing, initial, faulty).err.None?
    ensures var bases := SetupPlan(files, existing, initial, faulty).bases;
      && multiset(bases) == multiset(StoreOffsets(files.value).value)
      && forall x :: x in StoreOffsets(files.value).value ==> x <= bases[|bases| - 1]
  {
    var offs := StoreOffsets(files.value).value;
    var sorted := SortAscending(offs);
    assert SetupPlan(files, existing, initial, faulty).bases == sorted;
    SortAscendingLastIsMax(offs);
  }

  /** setup on a new log that succeeds leaves it with at least one segment. */
  lemma SetupPlanNonEmpty(files: Result<seq<string>>, initial: nat, faulty: set<nat>)
    requires SetupPlan(files, 0, initial, faulty).err.None?
    ensures SetupPlan(files, 0, initial, faulty).bases != []
  {
    var offs := StoreOffsets(files.value).value;
    var wanted := Planned(0, SortAscending(offs), initial);
    assert wanted != [];
  }

  /** setup's plan when the listing collects: the planned bases up to the
      first whose files cannot be opened. */
  lemma SetupPlanOpened(files: Result<seq<string>>, existing: nat, initial: nat, faulty: set<nat>, k: nat)
    requires files.Ok? && StoreOffsets(files.value).Ok?
    requires k == OpenablePrefix(Planned(existing, SortAscending(StoreOffsets(files.value).value), initial), faulty)
    ensures var wanted := Planned(existing, SortAscending(StoreOffsets(files.value).value), initial);
      SetupPlan(files, existing, initial, faulty)
      == SetupOutcome(wanted[..k], if k < |wanted| then Some(SegmentIOError(wanted[k])) else None)
  {
  }

  /** With no store file in the listing, setup on a new log opens exactly
      one segment, at the initial offset (or fails opening it). */
  lemma SetupPlanEmpty(names: seq<string>, initial: nat, faulty: set<nat>)
    requires forall i :: 0 <= i < |names| ==> !IsStoreFile(names[i])
    ensures SetupPlan(Ok(names), 0, initial, faulty) ==
      if initial in faulty then SetupOutcome([], Some(SegmentIOError(initial)))
      else SetupOutcome([initial], None)
  {
    StoreOffsetsNone(names);
    assert SortAscending([]) == [];
  }

  /** A store file whose name does not parse aborts setup with a parse
      error, and nothing is opened; when it is the first such file in the
      listing, the error is its own. */
  lemma SetupPlanParseError(names: seq<string>, existing: nat, initial: nat, faulty: set<nat>, i: nat)
    requires i < |names| && IsStoreFile(names[i]) && ParseUint(StorePrefix(names[i])).Err?
    ensures SetupPlan(Ok(names), existing, initial, faulty).bases == []
    ensures SetupPlan(Ok(names), existing, initial, faulty).err.Some?
    ensures SetupPlan(Ok(names), existing, initial, faulty).err.value.NumError?
    ensures (forall j :: 0 <= j < i && IsStoreFile(names[j]) ==> ParseUint(StorePrefix(names[j])).Ok?) ==>
      SetupPlan(Ok(names), existing, initial, faulty).err == Some(ParseUint(StorePrefix(names[i])).error)
  {
    StoreOffsetsSpec(names);
    StoreOffsetsErrorIsParse(names);
    if forall j :: 0 <= j < i && IsStoreFile(names[j]) ==> ParseUint(StorePrefix(names[j])).Ok? {
      StoreOffsetsSpec(names[..i]);
      StoreOffsetsPrefix(names, i);
      StoreOffsetsErrorSticks(names, i + 1);
    }
  }

  /** Reopening a directory that holds the files of segments at ascending
      bases opens exactly those segments again, in the same order. */
  lemma SetupPlanReopen(bases: seq<nat>, existing: nat, initial: nat, faulty: set<nat>)
    requires bases != [] && SortedAsc(bases) && forall b :: b in bases ==> b <= maxUint64 && b !in faulty
    ensures SetupPlan(Ok(SegmentFileNames(bases)), existing, initial, faulty) == SetupOutcome(bases, None)
  {
    SegmentFileNamesRoundTrip(bases);
    SortAscendingSorted(bases);
    forall j | 0 <= j < |bases| ensures bases[j] !in faulty {
      assert bases[j] in bases;
    }
    OpenablePrefixAt(bases, faulty, |bases|);
    assert bases[..|bases|] == bases;
  }

  class Log {
    const dir: Directory
    const config: Config
    var activeSegment: Segment?
    var segments: seq<Segment>

    /** The active segment as a set, for frames: empty before setup. */
    function ActiveSet(): set<Segment>
      reads this`activeSegment
    {
      if activeSegment == null then {} else {activeSegment}
    }

    /** Every segment the log refers to is well formed, shares the log's
        directory and limits, and no segment is listed twice. */
    ghost predicate Wellformed()
      reads this`activeSegment, this`segments
      reads ActiveSet()`nextOffset, ActiveSet()`records, ActiveSet()`storeBytes, ActiveSet()`indexBytes
      reads segments`nextOffset, segments`records, segments`storeBytes, segments`indexBytes
    {
      && (activeSegment != null ==> Fits(activeSegment, dir, config))
      && AllFit(segments, dir, config)
      && Distinct(segments)
    }

    /** A log set up successfully: it has an active segment to append to. */
    ghost predicate Valid()
      reads this`activeSegment, this`segments
      reads ActiveSet()`nextOffset, ActiveSet()`records, ActiveSet()`storeBytes, ActiveSet()`indexBytes
      reads segments`nextOffset, segments`records, segments`storeBytes, segments`indexBytes
    {
      Wellformed() && activeSegment != null
    }

    /** The active segment is the last element of segments (log.go:80-81). */
    predicate ActiveIsLast()
      reads this`activeSegment, this`segments
    {
      |segments| > 0 && activeSegment == segments[|segments| - 1]
    }

    constructor (dir: Directory, config: Config)
      ensures this.dir == dir && this.config == config
      ensures activeSegment == null && segments == []
      ensures Wellformed()
    {
      this.dir := dir;
      this.config := config;
      activeSegment := null;
      segments := [];
    }

    /** Log.newSegment: opens a segment at off, appends it to segments and
        makes it the active segment. */
    method NewSegment(off: nat) returns (err: Option<Error>)
      requires Wellformed()
      modifies this`segments, this`activeSegment, dir`stores
      ensures Wellformed()
      ensures err.Some? <==> CannotOpen(dir, off)
      ensures err.Some? ==> && err == Some(SegmentIOError(off))
                            && segments == old(segments) && activeSegment == old(activeSegment)
                            && dir.stores == old(dir.stores)
      ensures err.None? ==> && segments == old(segments) + [activeSegment]
                            && fresh(activeSegment) && !activeSegment.closed
                            && activeSegment.baseOffset == off
                            && activeSegment.records == Stored(old(dir.stores), off)
                            && dir.stores == old(dir.stores)[off := activeSegment.records]
    {
      var s, e := OpenSegment(dir, off, config);
      if e.Some? {
        return e;
      }
      DistinctSnoc(segments, s);
      segments := segments + [s];
      activeSegment := s;
      err := None;
    }

    /** Log.setup: lists the directory, collects the base offsets of the
        store files, sorts them and opens one segment per base in that order;
        with no store file and no segment yet it opens one at InitialOffset. A
        listing error (the directory is gone, or listing fails), a parse error
        or a segment that cannot be opened aborts with that error. Opening
        creates missing files but changes no persisted record. */
    method Setup(listing: Result<seq<string>>) returns (err: Option<Error>, ghost added: seq<Segment>)
      requires Wellformed()
      modifies this`segments, this`activeSegment, dir`stores
      ensures Wellformed()
      ensures segments == old(segments) + added
      ensures forall j :: 0 <= j < |added| ==>
        fresh(added[j]) && !added[j].closed && added[j].records == Stored(old(dir.stores), added[j].baseOffset)
      ensures added != [] ==> ActiveIsLast()
      ensures added == [] ==> activeSegment == old(activeSegment)
      ensures forall b :: Stored(dir.stores, b) == Stored(old(dir.stores), b)
      ensures forall b :: b in dir.stores ==> b in old(dir.stores) || b in BaseOffsets(added)
      ensures SetupPlan(ReadDir(dir.present, listing), old(|segments|), config.initialOffset, dir.faulty)
              == SetupOutcome(BaseOffsets(added), err)
    {
      var files := ReadDir(dir.present, listing);
      var planned := ListedBases(files);
      if planned.Err? {
        return Some(planned.error), [];
      }
      var wanted := Planned(|segments|, planned.value, config.initialOffset);
      ghost var k;
      err, added, k := OpenAll(wanted);
      SetupPlanOpened(files, old(|segments|), config.initialOffset, dir.faulty, k);
    }

    /** Setup's loop: opens a segment at each of bases in order, stopping at
        the first that cannot be opened, at index k. */
    method OpenAll(bases: seq<nat>) returns (err: Option<Error>, ghost added: seq<Segment>, ghost k: nat)
      requires Wellformed()
      modifies this`segments, this`activeSegment, dir`stores
      ensures Opening(old(segments), added, old(activeSegment), old(dir.stores))
      ensures forall j :: 0 <= j < |added| ==> fresh(added[j])
      ensures k <= |bases| && |added| == k
      ensures forall j :: 0 <= j < k ==> added[j].baseOffset == bases[j]
      ensures err.None? ==> k == |bases|
      ensures err.Some? ==> k < |bases| && CannotOpen(dir, bases[k]) && err == Some(SegmentIOError(bases[k]))
      ensures BaseOffsets(added) == bases[..k]
      ensures dir.present ==> k == OpenablePrefix(bases, dir.faulty)
      ensures err == if k < |bases| then Some(SegmentIOError(bases[k])) else None
    {
      added, err := [], None;
      var i := 0;
      while i < |bases|
        invariant Opening(old(segments), added, old(activeSegment), old(dir.stores))
        invariant forall j :: 0 <= j < |added| ==> fresh(added[j])
        invariant i <= |bases| && |added| == i && err.None?
        invariant forall j :: 0 <= j < i ==> added[j].baseOffset == bases[j]
      {
        ghost var prev := added;
        err, added := OpenNext(bases[i], old(segments), added, old(activeSegment), old(dir.stores));
        if err.Some? {
          break;
        }
        assert forall j :: 0 <= j < i ==> added[j] == prev[j];
        i := i + 1;
      }
      assert BaseOffsets(added) == bases[..i];
      if dir.present {
        OpenablePrefixAt(bases, dir.faulty, i);
      }
      k := i;
    }

    /** Setup after opening the segments added on top of the segments segs0
        it started with: each added segment is open and has the records its
        files held, and opening has not changed what the files hold. */
    ghost predicate Opening(segs0: seq<Segment>, added: seq<Segment>, active0: Segment?, stores0: map<nat, seq<Payload>>)
      reads this`activeSegment, this`segments
      reads ActiveSet()`nextOffset, ActiveSet()`records, ActiveSet()`storeBytes, ActiveSet()`indexBytes
      reads segments`nextOffset, segments`records, segments`storeBytes, segments`indexBytes
      reads added`closed, added`records, dir`stores, dir`faulty, dir`present
    {
      && Wellformed()
      && segments == segs0 + added
      && (added != [] ==> activeSegment == added[|added| - 1])
      && (added == [] ==> activeSegment == active0)
      && (forall b :: Stored(dir.stores, b) == Stored(stores0, b))
      && (forall b :: b in dir.stores ==> b in stores0 || b in BaseOffsets(added))
      && (forall j :: 0 <= j < |added| ==>
            && !CannotOpen(dir, added[j].baseOffset) && !added[j].closed
            && added[j].records == Stored(stores0, added[j].baseOffset))
    }

    /** Persisting what a store already holds changes no one's contents. */
    lemma StoredKeepsContents(stores: map<nat, seq<Payload>>, off: nat)
      ensures forall b :: Stored(stores[off := Stored(stores, off)], b) == Stored(stores, b)
      ensures forall b :: b in stores[off := Stored(stores, off)] ==> b in stores || b == off
    {
    }

    /** One step of setup: opens the segment at off. */
    method OpenNext(off: nat, ghost segs0: seq<Segment>, ghost added: seq<Segment>, ghost active0: Segment?,
                    ghost stores0: map<nat, seq<Payload>>)
      returns (e: Option<Error>, ghost added': seq<Segment>)
      requires Opening(segs0, added, active0, stores0)
      modifies this`segments, this`activeSegment, dir`stores
      ensures e.Some? <==> CannotOpen(dir, off)
      ensures e.Some? ==> e == Some(SegmentIOError(off)) && added' == added
      ensures e.None? ==> added' == added + [activeSegment] && fresh(activeSegment) && activeSegment.baseOffset == off
      ensures Opening(segs0, added', active0, stores0)
    {
      ghost var stores := dir.stores;
      e := NewSegment(off);
      if e.Some? {
        return e, added;
      }
      added' := added + [activeSegment];
      assert BaseOffsets(added') == BaseOffsets(added) + [off];
      StoredKeepsContents(stores, off);
    }

    /** The first half of Log.Append: the active segment's own append, with
        what it means for the segment list. */
    method AppendActive(p: Payload) returns (res: Result<nat>)
      requires Valid()
      modifies activeSegment`nextOffset, activeSegment`records, activeSegment`storeBytes, activeSegment`indexBytes
      modifies dir`stores
      ensures Valid()
      ensures res.Ok? <==> old(!activeSegment.IoFails() && !activeSegment.IndexFull())
      ensures old(activeSegment.IoFails()) ==> res == Err(SegmentIOError(activeSegment.baseOffset))
      ensures old(!activeSegment.IoFails() && activeSegment.IndexFull()) ==> res == Err(EOF)
      ensures res.Err? ==> unchanged(activeSegment, dir)
      ensures res.Ok? ==> res.value == old(activeSegment.nextOffset)
      ensures res.Ok? ==> activeSegment.records == old(activeSegment.records) + [p]
      ensures res.Ok? ==> dir.stores == old(dir.stores)[activeSegment.baseOffset := activeSegment.records]
      ensures old(ActiveIsLast() && Ordered(segments)) ==> Ordered(segments)
      ensures res.Ok? ==> activeSegment.Contains(res.value)
    {
      ghost var n := |segments|;
      ghost var wasOrdered := ActiveIsLast() && Ordered(segments);
      ghost var nexts := NextOffsets(segments);
      if wasOrdered {
        OrderedRanges(segments);
      }
      res := activeSegment.Append(p);
      if res.Ok? {
        forall i | 0 <= i < |segments| ensures Fits(segments[i], dir, config) {
          if segments[i] != activeSegment {
            assert Fits(old(segments[i]), dir, config);
          }
        }
        if wasOrdered {
          forall i | 0 <= i < n - 1 ensures segments[i].nextOffset == nexts[i] {
            assert At(segments, i) != At(segments, n - 1);
          }
          AppendOrdered(segments, nexts);
        }
      }
    }

    /** The second half of Log.Append: opens a segment at the offset after
        off and makes it active, discarding any error from doing so. */
    method Rotate(off: nat)
      requires Valid()
      modifies this`segments, this`activeSegment, dir`stores
      ensures Valid()
      ensures !CannotOpen(dir, off + 1) ==>
        && |segments| == old(|segments|) + 1 && segments[..old(|segments|)] == old(segments)
        && ActiveIsLast() && fresh(activeSegment) && !activeSegment.closed && activeSegment.baseOffset == off + 1
        && activeSegment.records == Stored(old(dir.stores), off + 1)
        && dir.stores == old(dir.stores)[off + 1 := activeSegment.records]
      ensures CannotOpen(dir, off + 1) ==>
        segments == old(segments) && activeSegment == old(activeSegment) && dir.stores == old(dir.stores)
      ensures old(ActiveIsLast()) ==> ActiveIsLast()
      ensures old(ActiveIsLast() && Ordered(segments) && activeSegment.nextOffset == off + 1) ==> Ordered(segments)
      ensures old(Locate(segments, off)).Some? ==> Locate(segments, off) == old(Locate(segments, off))
    {
      ghost var before := segments;
      ghost var ordered := ActiveIsLast() && Ordered(segments) && activeSegment.nextOffset == off + 1;
      ghost var located := Locate(segments, off);
      assert AllValid(before) by {
        forall i | 0 <= i < |before| ensures before[i].Valid() {
          assert Fits(before[i], dir, config);
        }
      }
      var ignored := NewSegment(off + 1);
      if ignored.None? {
        if ordered {
          OrderedAfterRotation(before, activeSegment);
        }
        if located.Some? {
          LocateSnoc(before, activeSegment, off);
        }
      }
    }

    /** Log.Append: appends to the active segment; when that leaves it maxed,
        opens a segment at off + 1 and makes it active, discarding any error
        from doing so. */
    method Append(p: Payload) returns (r: Result<nat>)
      requires Valid()
      modifies this`segments, this`activeSegment, dir`stores
      modifies activeSegment`nextOffset, activeSegment`records, activeSegment`storeBytes, activeSegment`indexBytes
      ensures Valid()
      ensures r.Ok? <==> old(!activeSegment.IoFails() && !activeSegment.IndexFull())
      ensures old(activeSegment.IoFails()) ==> r == Err(SegmentIOError(old(activeSegment.baseOffset)))
      ensures old(!activeSegment.IoFails() && activeSegment.IndexFull()) ==> r == Err(EOF)
      ensures r.Err? ==> segments == old(segments) && activeSegment == old(activeSegment)
      ensures r.Err? ==> activeSegment.records == old(activeSegment.records)
      ensures r.Ok? ==> r.value == old(activeSegment.nextOffset)
      ensures r.Ok? ==> old(activeSegment).records == old(activeSegment.records) + [p]
      ensures r.Ok? && old(activeSegment).IsMaxed() && !CannotOpen(dir, r.value + 1) ==>
        && |segments| == old(|segments|) + 1 && segments[..old(|segments|)] == old(segments)
        && ActiveIsLast() && fresh(activeSegment) && !activeSegment.closed && activeSegment.baseOffset == r.value + 1
        && activeSegment.records == Stored(old(dir.stores), r.value + 1)
      ensures r.Ok? && !(old(activeSegment).IsMaxed() && !CannotOpen(dir, r.value + 1)) ==>
        segments == old(segments) && activeSegment == old(activeSegment)
      ensures r.Err? ==> dir.stores == old(dir.stores)
      ensures r.Ok? && !(old(activeSegment).IsMaxed() && !CannotOpen(dir, r.value + 1)) ==>
        dir.stores == old(dir.stores)[old(activeSegment.baseOffset) := old(activeSegment).records]
      ensures r.Ok? && old(activeSegment).IsMaxed() && !CannotOpen(dir, r.value + 1) ==>
        dir.stores == old(dir.stores)[old(activeSegment.baseOffset) := old(activeSegment).records]
                                     [r.value + 1 := activeSegment.records]
      ensures old(ActiveIsLast()) ==> ActiveIsLast()
      ensures old(ActiveIsLast() && Ordered(segments)) ==> Ordered(segments)
      ensures old(ActiveIsLast() && Ordered(segments)) && r.Ok? ==>
        segments[old(|segments|) - 1] == old(activeSegment)
        && Locate(segments, r.value) == Some(old(|segments|) - 1)
    {
      ghost var ordered := ActiveIsLast() && Ordered(segments);
      ghost var wasLast := ActiveIsLast();
      ghost var n := |segments|;
      var res := AppendActive(p);
      if res.Err? {
        r := Err(res.error);
      } else {
        assert activeSegment.nextOffset == res.value + 1;
        assert ordered ==> Ordered(segments) && ActiveIsLast();
        if ordered {
          OrderedLocate(segments, n - 1, res.value);
        }
        if activeSegment.IsMaxed() {
          assert Stored(dir.stores, res.value + 1) == Stored(old(dir.stores), res.value + 1);
          Rotate(res.value);
        }
        r := Ok(res.value);
      }
    }

    /** Log.Read: scans segments in order for the first whose range holds
        off; with none, ErrOffsetOutOfRange. */
    method Read(off: nat) returns (r: Result<Record>)
      requires Wellformed()
      ensures Locate(segments, off).None? ==> r == Err(OffsetOutOfRange(off))
      ensures Locate(segments, off).Some? ==>
        var s := segments[Locate(segments, off).value];
        r == if s.IoFails() then Err(SegmentIOError(s.baseOffset))
             else Ok(Record(s.records[off - s.baseOffset], off))
    {
      var s: Segment? := null;
      var i := 0;
      while i < |segments|
        invariant 0 <= i <= |segments|
        invariant s == null
        invariant forall j :: 0 <= j < i ==> !segments[j].Contains(off)
      {
        if segments[i].baseOffset <= off && off < segments[i].nextOffset {
          s := segments[i];
          break;
        }
        i := i + 1;
      }
      if s == null || s.nextOffset <= off {
        return Err(OffsetOutOfRange(off));
      }
      assert Locate(segments, off) == Some(i);
      r := s.Read(off);
    }

    /** Log.Close: closes every segment in order, stopping at the first error. */
    method Close() returns (err: Option<Error>)
      requires Wellformed()
      modifies segments`closed
      ensures err.Some? <==> FirstTrue(old(CloseFailures(segments, dir.faulty))).Some?
      ensures err.Some? ==> var k := FirstTrue(old(CloseFailures(segments, dir.faulty))).value;
        && err == Some(SegmentIOError(segments[k].baseOffset))
        && (forall j :: 0 <= j < k ==> segments[j].closed)
        && (forall j :: k <= j < |segments| ==> segments[j].closed == old(segments[j].closed))
      ensures err.None? ==> forall j :: 0 <= j < |segments| ==> segments[j].closed
    {
      ghost var flags := CloseFailures(segments, dir.faulty);
      ghost var closed0 := ClosedFlags(segments);
      assert forall j :: 0 <= j < |segments| ==>
        flags[j] == (closed0[j] || segments[j].baseOffset in dir.faulty);
      ghost var n;
      err, n := CloseLoop(closed0);
      if err.Some? {
        FirstTrueAt(flags, n);
      } else {
        FirstTrueNone(flags);
      }
    }

    /** Close's loop: closes the segments in order and stops at the first
        that fails, at index n. */
    method CloseLoop(ghost closed0: seq<bool>) returns (err: Option<Error>, ghost n: nat)
      requires Wellformed() && Closing(0, closed0)
      modifies segments`closed
      ensures Closing(n, closed0)
      ensures err.None? ==> n == |segments|
      ensures err.Some? ==> n < |segments| && (closed0[n] || segments[n].baseOffset in dir.faulty)
      ensures err.Some? ==> err == Some(SegmentIOError(segments[n].baseOffset))
    {
      var i := 0;
      while i < |segments|
        invariant Wellformed()
        invariant Closing(i, closed0)
      {
        var e := CloseAt(i, closed0);
        if e.Some? {
          return e, i;
        }
        i := i + 1;
      }
      return None, i;
    }

    /** Close's loop after it has closed the first i segments: closed0 holds
        the closed flags from before it started. */
    ghost predicate Closing(i: nat, closed0: seq<bool>)
      reads this`segments, segments`closed, dir`faulty
    {
      && i <= |segments| && |closed0| == |segments|
      && (forall j :: 0 <= j < i ==> !closed0[j] && segments[j].baseOffset !in dir.faulty && segments[j].closed)
      && (forall j :: i <= j < |segments| ==> segments[j].closed == closed0[j])
    }

    /** One step of Close's loop: closes segment i. */
    method CloseAt(i: nat, ghost closed0: seq<bool>) returns (e: Option<Error>)
      requires Wellformed() && Closing(i, closed0) && i < |segments|
      modifies {segments[i]}`closed
      ensures e.Some? ==> e == Some(SegmentIOError(segments[i].baseOffset))
      ensures e.Some? ==> (closed0[i] || segments[i].baseOffset in dir.faulty)
      ensures e.Some? ==> Closing(i, closed0)
      ensures e.None? ==> Closing(i + 1, closed0)
    {
      var s := segments[i];
      assert Fits(s, dir, config);
      e := s.Close();
      if e.Some? {
        return;
      }
      forall j | 0 <= j < i ensures segments[j].closed {
        assert At(segments, j) != At(segments, i);
      }
      forall j | i < j < |segments| ensures segments[j].closed == closed0[j] {
        assert At(segments, i) != At(segments, j);
      }
    }

    /** Log.Remove: closes the log and deletes its directory. An error from
        closing is swallowed: Remove then reports success and keeps the
        directory. */
    method Remove() returns (err: Option<Error>)
      requires Wellformed()
      modifies segments`closed, dir`stores, dir`present
      ensures FirstTrue(old(CloseFailures(segments, dir.faulty))).Some? ==>
        err.None? && dir.stores == old(dir.stores) && dir.present == old(dir.present)
      ensures FirstTrue(old(CloseFailures(segments, dir.faulty))).Some? ==>
        var k := FirstTrue(old(CloseFailures(segments, dir.faulty))).value;
        && (forall j :: 0 <= j < k ==> segments[j].closed)
        && (forall j :: k <= j < |segments| ==> segments[j].closed == old(segments[j].closed))
      ensures FirstTrue(old(CloseFailures(segments, dir.faulty))).None? ==>
        forall j :: 0 <= j < |segments| ==> segments[j].closed
      ensures FirstTrue(old(CloseFailures(segments, dir.faulty))).None? && dir.removeAllFails ==>
        err == Some(DirIOError) && dir.stores == old(dir.stores) && dir.present == old(dir.present)
      ensures FirstTrue(old(CloseFailures(segments, dir.faulty))).None? && !dir.removeAllFails ==>
        err.None? && dir.stores == map[] && !dir.present
    {
      var e := Close();
      if e.Some? {
        return None;
      }
      if dir.removeAllFails {
        return Some(DirIOError);
      }
      dir.stores := map[];
      dir.present := false;
      err := None;
    }

    /** Log.Reset: Remove, then setup again. An error from Remove is
        swallowed and setup is skipped. When Remove deleted the directory,
        setup's listing fails, so Reset reports that error and the log keeps
        its closed segments. When closing failed, Remove reported success
        without deleting anything and setup adds segments for the store files
        again after the old ones; added holds them. */
    method Reset(listing: Result<seq<string>>) returns (err: Option<Error>, ghost added: seq<Segment>)
      requires Wellformed()
      modifies this`segments, this`activeSegment, segments`closed, dir`stores, dir`present
      ensures Wellformed()
      ensures segments == old(segments) + added
      ensures added != [] ==> ActiveIsLast()
      ensures added == [] ==> activeSegment == old(activeSegment)
      ensures FirstTrue(old(CloseFailures(segments, dir.faulty))).Some? ==>
        && dir.present == old(dir.present)
        && forall b :: Stored(dir.stores, b) == Stored(old(dir.stores), b)
      ensures FirstTrue(old(CloseFailures(segments, dir.faulty))).Some? ==>
        SetupPlan(ReadDir(old(dir.present), listing), old(|segments|), config.initialOffset, dir.faulty)
        == SetupOutcome(BaseOffsets(added), err)
      ensures FirstTrue(old(CloseFailures(segments, dir.faulty))).Some? ==>
        forall j :: 0 <= j < |added| ==>
          fresh(added[j]) && !added[j].closed && added[j].records == Stored(old(dir.stores), added[j].baseOffset)
      ensures FirstTrue(old(CloseFailures(segments, dir.faulty))).Some? ==>
        var k := FirstTrue(old(CloseFailures(segments, dir.faulty))).value;
        && (forall j :: 0 <= j < k ==> old(segments)[j].closed)
        && (forall j :: k <= j < old(|segments|) ==> old(segments)[j].closed == old(segments[j].closed))
      ensures FirstTrue(old(CloseFailures(segments, dir.faulty))).None? ==>
        added == [] && forall j :: 0 <= j < |segments| ==> segments[j].closed
      ensures FirstTrue(old(CloseFailures(segments, dir.faulty))).None? && dir.removeAllFails ==>
        err.None? && dir.stores == old(dir.stores) && dir.present == old(dir.present)
      ensures FirstTrue(old(CloseFailures(segments, dir.faulty))).None? && !dir.removeAllFails ==>
        err == Some(DirIOError) && dir.stores == map[] && !dir.present
    {
      var e := Remove();
      if e.Some? {
        return None, [];
      }
      err, added := Setup(listing);
    }

    /** Log.LowestOffset: the first segment's base offset; below it an
        ordered log holds nothing. */
    function LowestOffset(): (r: nat)
      requires |segments| > 0
      reads this`activeSegment, this`segments
      reads ActiveSet()`nextOffset, ActiveSet()`records, ActiveSet()`storeBytes, ActiveSet()`indexBytes
      reads segments`nextOffset, segments`records, segments`storeBytes, segments`indexBytes
      ensures Wellformed() && Ordered(segments) ==>
        forall off: nat :: off < r ==> Locate(segments, off).None?
    {
      LowestBound(segments);
      segments[0].baseOffset
    }

    /** Log.HighestOffset: the last segment's nextOffset - 1, or 0 when that
        is 0. Above it an ordered log holds nothing; when the last segment
        holds records, it holds this offset. */
    function HighestOffset(): (r: nat)
      requires |segments| > 0
      reads this`activeSegment, this`segments
      reads ActiveSet()`nextOffset, ActiveSet()`records, ActiveSet()`storeBytes, ActiveSet()`indexBytes
      reads segments`nextOffset, segments`records, segments`storeBytes, segments`indexBytes
      ensures Wellformed() && Ordered(segments) ==>
        forall off: nat :: off > r ==> Locate(segments, off).None?
      ensures Wellformed() && Ordered(segments) && segments[|segments| - 1].records != [] ==>
        Locate(segments, r) == Some(|segments| - 1)
    {
      var off := segments[|segments| - 1].nextOffset;
      var r := if off == 0 then 0 else off - 1;
      HighestBound(segments, r);
      r
    }

    /** Truncate's loop after it has examined the first i segments: closed0
        holds the closed flags from before it started. Every segment so far
        below lowest was removable and is now closed with its files gone; the
        kept ones and those not yet examined keep their closed flags. */
    ghost predicate Removing(i: nat, lowest: nat, closed0: seq<bool>, stores0: map<nat, seq<Payload>>)
      reads this`segments, segments`closed, dir`stores, dir`faulty
    {
      && i <= |segments| && |closed0| == |segments|
      && dir.stores == StoresWithout(stores0, segments[..i], lowest)
      && (forall j :: 0 <= j < i && segments[j].baseOffset < lowest ==>
            && !closed0[j] && segments[j].baseOffset !in dir.faulty
            && segments[j].closed && segments[j].baseOffset !in dir.stores)
      && (forall j :: 0 <= j < |segments| && (i <= j || segments[j].baseOffset >= lowest) ==>
            segments[j].closed == closed0[j])
    }

    /** Truncate's loop starts from the present list: nothing removed yet,
        and the failure flags are those Truncate reports by. */
    lemma RemovingStart(lowest: nat)
      ensures Removing(0, lowest, ClosedFlags(segments), dir.stores)
      ensures FailureFlags(RemoveFailures(segments, lowest, dir.faulty), segments, lowest, ClosedFlags(segments), dir.faulty)
    {
    }

    /** Keeping segment i, whose base is at least lowest, changes nothing. */
    lemma RemovingSkip(i: nat, lowest: nat, closed0: seq<bool>, stores0: map<nat, seq<Payload>>)
      requires Removing(i, lowest, closed0, stores0)
      requires i < |segments| && segments[i].baseOffset >= lowest
      ensures Removing(i + 1, lowest, closed0, stores0)
    {
      StoresWithoutPrefix(stores0, segments, i, lowest);
    }

    /** One step of Truncate's loop: removes segment i, whose base is below lowest. */
    method RemoveAt(i: nat, lowest: nat, ghost closed0: seq<bool>, ghost stores0: map<nat, seq<Payload>>)
      returns (e: Option<Error>)
      requires Wellformed() && Removing(i, lowest, closed0, stores0)
      requires i < |segments| && segments[i].baseOffset < lowest
      modifies {segments[i]}`closed, dir`stores
      ensures e.Some? ==> e == Some(SegmentIOError(segments[i].baseOffset))
      ensures e.Some? ==> (closed0[i] || segments[i].baseOffset in dir.faulty)
      ensures e.Some? ==> Removing(i, lowest, closed0, stores0)
      ensures e.None? ==> Removing(i + 1, lowest, closed0, stores0)
    {
      var s := segments[i];
      ghost var storesBefore := dir.stores;
      assert Fits(s, dir, config);
      e := s.Remove();
      if e.Some? {
        return;
      }
      forall j | 0 <= j < i && segments[j].baseOffset < lowest
        ensures segments[j].closed && segments[j].baseOffset !in dir.stores
      {
        assert At(segments, j) != At(segments, i);
        assert segments[j].baseOffset !in storesBefore;
      }
      forall j | 0 <= j < |segments| && j != i && (j > i || segments[j].baseOffset >= lowest)
        ensures segments[j].closed == closed0[j]
      {
        assert At(segments, i) != At(segments, j);
      }
      StoresWithoutPrefix(stores0, segments, i, lowest);
    }

    /** One iteration of Truncate's loop: segment i is removed when its base
        is below lowest, and otherwise joins the kept ones. */
    method RemoveStep(i: nat, lowest: nat, ghost closed0: seq<bool>, ghost stores0: map<nat, seq<Payload>>, kept: seq<Segment>)
      returns (kept': seq<Segment>, e: Option<Error>)
      requires Wellformed() && Removing(i, lowest, closed0, stores0)
      requires i < |segments| && kept == KeptPrefix(segments, i, lowest)
      modifies {segments[i]}`closed, dir`stores
      ensures Wellformed()
      ensures e.None? ==> Removing(i + 1, lowest, closed0, stores0) && kept' == KeptPrefix(segments, i + 1, lowest)
      ensures e.Some? ==> Removing(i, lowest, closed0, stores0) && segments[i].baseOffset < lowest
      ensures e.Some? ==> (closed0[i] || segments[i].baseOffset in dir.faulty)
      ensures e.Some? ==> e == Some(SegmentIOError(segments[i].baseOffset))
    {
      var s := segments[i];
      if s.baseOffset < lowest {
        kept' := kept;
        e := RemoveAt(i, lowest, closed0, stores0);
      } else {
        RemovingSkip(i, lowest, closed0, stores0);
        kept', e := kept + [s], None;
      }
    }

    /** Truncate's loop: removes, in order, every segment whose base is below
        lowest and collects the others; stops at the first removal that fails,
        at index n. The list itself is not reassigned here. */
    method RemoveLoop(lowest: nat, ghost closed0: seq<bool>, ghost stores0: map<nat, seq<Payload>>) returns (kept: seq<Segment>, err: Option<Error>, ghost n: nat)
      requires Wellformed() && Removing(0, lowest, closed0, stores0)
      modifies segments`closed, dir`stores
      ensures Wellformed()
      ensures Removing(n, lowest, closed0, stores0)
      ensures err.None? ==> n == |segments| && kept == Kept(segments, lowest)
      ensures err.Some? ==> n < |segments| && segments[n].baseOffset < lowest
      ensures err.Some? ==> (closed0[n] || segments[n].baseOffset in dir.faulty)
      ensures err.Some? ==> err == Some(SegmentIOError(segments[n].baseOffset))
    {
      kept, err := [], None;
      var i := 0;
      while i < |segments| && err.None?
        invariant Wellformed() && Removing(i, lowest, closed0, stores0)
        invariant err.None? ==> kept == KeptPrefix(segments, i, lowest)
        invariant err.Some? ==>
          && i < |segments| && segments[i].baseOffset < lowest
          && (closed0[i] || segments[i].baseOffset in dir.faulty)
          && err == Some(SegmentIOError(segments[i].baseOffset))
        decreases |segments| - i, if err.None? then 1 else 0
      {
        var kept';
        kept', err := RemoveStep(i, lowest, closed0, stores0, kept);
        if err.None? {
          kept, i := kept', i + 1;
        }
      }
      n := i;
    }

    /** Truncate's loop, with its outcome restated in the terms Truncate's
        contract uses: flags marks the segments whose removal fails, and
        closed0 holds the closed flags from before it started. */
    method RemoveBelow(lowest: nat) returns (kept: seq<Segment>, err: Option<Error>, ghost closed0: seq<bool>)
      requires Wellformed()
      modifies segments`closed, dir`stores
      ensures Wellformed()
      ensures closed0 == old(ClosedFlags(segments))
      ensures var flags := old(RemoveFailures(segments, lowest, dir.faulty));
        && (err.Some? <==> FirstTrue(flags).Some?)
        && (err.None? ==> && kept == Kept(segments, lowest) && RemovedBelow(segments, lowest, dir.stores)
                          && dir.stores == old(dir.stores) - BasesBelow(segments, lowest))
        && (err.Some? ==>
              && err == Some(SegmentIOError(segments[FirstTrue(flags).value].baseOffset))
              && RemovedBelow(segments[..FirstTrue(flags).value], lowest, dir.stores)
              && dir.stores == old(dir.stores) - BasesBelow(segments[..FirstTrue(flags).value], lowest)
              && forall j :: FirstTrue(flags).value <= j < |segments| ==> segments[j].closed == closed0[j])
      ensures forall j :: 0 <= j < |segments| && segments[j].baseOffset >= lowest ==> segments[j].closed == closed0[j]
    {
      ghost var flags := RemoveFailures(segments, lowest, dir.faulty);
      closed0 := ClosedFlags(segments);
      ghost var stores0 := dir.stores;
      RemovingStart(lowest);
      ghost var n;
      kept, err, n := RemoveLoop(lowest, closed0, stores0);
      RemovingFacts(n, lowest, closed0, stores0);
      StoresWithoutIsDifference(stores0, segments[..n], lowest);
      assert forall j :: 0 <= j < n ==> !flags[j];
      if err.Some? {
        FirstTrueAt(flags, n);
      } else {
        FirstTrueNone(flags);
        assert segments[..n] == segments;
      }
    }

    /** What Removing(i, ...) says, in the terms Truncate states its result in. */
    lemma RemovingFacts(i: nat, lowest: nat, closed0: seq<bool>, stores0: map<nat, seq<Payload>>)
      requires Removing(i, lowest, closed0, stores0)
      ensures RemovedBelow(segments[..i], lowest, dir.stores)
      ensures forall j :: 0 <= j < |segments| && (i <= j || segments[j].baseOffset >= lowest) ==>
        segments[j].closed == closed0[j]
    {
    }

    /** Log.Truncate: removes every segment whose base offset is below lowest
        and keeps the rest in order; the first removal that fails aborts with
        its error and leaves segments as it was (segments removed before it
        stay removed). activeSegment is not touched. */
    method Truncate(lowest: nat) returns (err: Option<Error>)
      requires Wellformed()
      modifies this`segments, segments`closed, dir`stores
      ensures Wellformed()
      ensures activeSegment == old(activeSegment)
      ensures err.Some? <==> FirstTrue(old(RemoveFailures(segments, lowest, dir.faulty))).Some?
      ensures err.None? ==> segments == Kept(old(segments), lowest)
      ensures err.None? ==> RemovedBelow(old(segments), lowest, dir.stores)
      ensures err.None? ==> dir.stores == old(dir.stores) - BasesBelow(old(segments), lowest)
      ensures err.Some? ==> var k := FirstTrue(old(RemoveFailures(segments, lowest, dir.faulty))).value;
        && segments == old(segments)
        && err == Some(SegmentIOError(segments[k].baseOffset))
        && RemovedBelow(segments[..k], lowest, dir.stores)
        && dir.stores == old(dir.stores) - BasesBelow(segments[..k], lowest)
        && forall j :: k <= j < |segments| ==> segments[j].closed == old(segments[j].closed)
      ensures forall j :: 0 <= j < |old(segments)| && old(segments[j].baseOffset) >= lowest ==>
        old(segments)[j].closed == old(segments[j].closed)
    {
      var kept;
      ghost var closed0;
      kept, err, closed0 := RemoveBelow(lowest);
      if err.None? {
        KeepOnly(lowest, kept);
      }
    }

    /** The end of a successful Truncate: the list becomes the kept segments. */
    method KeepOnly(lowest: nat, kept: seq<Segment>)
      requires Wellformed() && kept == Kept(segments, lowest)
      modifies this`segments
      ensures Wellformed() && segments == kept
      ensures old(Ordered(segments)) ==> Ordered(segments)
      ensures old(Ordered(segments) && ActiveIsLast()) ==> ActiveIsLast() || segments == []
    {
      KeptWellformed(lowest);
      segments := kept;
    }

    /** The segments Truncate keeps still fit the log and are distinct; kept
        from an ordered list they stay ordered, and when the active segment
        was last it is still last unless nothing is kept. */
    lemma KeptWellformed(lowest: nat)
      requires Wellformed()
      ensures AllFit(Kept(segments, lowest), dir, config) && Distinct(Kept(segments, lowest))
      ensures Ordered(segments) ==> Ordered(Kept(segments, lowest))
      ensures Ordered(segments) && ActiveIsLast() ==>
        var k := Kept(segments, lowest);
        k == [] || k[|k| - 1] == activeSegment
    {
      KeptFit(segments, lowest, dir, config);
      KeptDistinct(segments, |segments|, lowest);
      if Ordered(segments) {
        KeptOrdered(segments, |segments|, lowest);
        if ActiveIsLast() {
          assert AllValid(segments) by {
            forall i | 0 <= i < |segments| ensures segments[i].Valid() {
              assert Fits(segments[i], dir, config);
            }
          }
          TruncateKeepsActiveOrEmpties(segments, lowest);
        }
      }
    }
  }

  /** The list was ordered with the segments' ends at nexts, and only the
      last segment's end has moved since: the list is still ordered, since
      no segment follows the last. */
  lemma AppendOrdered(ss: seq<Segment>, nexts: seq<nat>)
    requires |ss| > 0 && RangesOrdered(BaseOffsets(ss), nexts)
    requires forall i :: 0 <= i < |ss| - 1 ==> ss[i].nextOffset == nexts[i]
    ensures Ordered(ss)
  {
    forall i, j | 0 <= i < j < |ss| ensures Precedes(ss, i, j) {
      assert RangeBefore(BaseOffsets(ss), nexts, i, j);
    }
  }

  /** Opening a segment at the old last segment's nextOffset keeps the list ordered. */
  lemma OrderedAfterRotation(before: seq<Segment>, s: Segment)
    requires |before| > 0 && Ordered(before) && AllValid(before)
    requires s.baseOffset == before[|before| - 1].nextOffset
    ensures Ordered(before + [s])
  {
    var ss := before + [s];
    var last := before[|before| - 1];
    forall i, j | 0 <= i < j < |ss| ensures Precedes(ss, i, j) {
      if j < |before| {
        assert Precedes(before, i, j);
      } else if i < |before| - 1 {
        assert Precedes(before, i, |before| - 1);
        assert last.Valid();
      }
    }
  }

  /** Below the first base an ordered list holds no offset. */
  lemma LowestBound(ss: seq<Segment>)
    requires |ss| > 0
    ensures Ordered(ss) && AllValid(ss) ==>
      forall off: nat :: off < ss[0].baseOffset ==> Locate(ss, off).None?
  {
    if Ordered(ss) && AllValid(ss) {
      forall off: nat | off < ss[0].baseOffset ensures Locate(ss, off).None? {
        BelowLowestNotFound(ss, off);
      }
    }
  }

  /** Above HighestOffset's result an ordered list holds no offset, and a
      last segment with records holds that offset itself. */
  lemma HighestBound(ss: seq<Segment>, r: nat)
    requires |ss| > 0
    requires var next := ss[|ss| - 1].nextOffset; r == if next == 0 then 0 else next - 1
    ensures Ordered(ss) && AllValid(ss) ==> forall off: nat :: off > r ==> Locate(ss, off).None?
    ensures Ordered(ss) && AllValid(ss) && ss[|ss| - 1].records != [] ==>
      Locate(ss, r) == Some(|ss| - 1)
  {
    if !(Ordered(ss) && AllValid(ss)) {
      return;
    }
    forall off: nat | off > r ensures Locate(ss, off).None? {
      AboveHighestNotFound(ss, off);
    }
    var last := ss[|ss| - 1];
    assert last.Valid();
    if last.records != [] {
      OrderedLocate(ss, |ss| - 1, r);
    }
  }

  /** The openable prefix ends at the first base whose files cannot be opened. */
  lemma OpenablePrefixAt(bases: seq<nat>, faulty: set<nat>, i: nat)
    requires i <= |bases| && forall j :: 0 <= j < i ==> bases[j] !in faulty
    requires i < |bases| ==> bases[i] in faulty
    ensures OpenablePrefix(bases, faulty) == i
  {
  }

  /** NewLog: applies the configuration defaults and runs setup on the
      directory listing. The Log is returned together with setup's error;
      when setup succeeds the log has an active segment, the last one. */
  method NewLog(dir: Directory, cfg: Config, listing: Result<seq<string>>) returns (l: Log, err: Option<Error>)
    modifies dir`stores
    ensures fresh(l) && l.dir == dir && l.config == WithDefaults(cfg)
    ensures l.Wellformed()
    ensures SetupPlan(ReadDir(dir.present, listing), 0, cfg.initialOffset, dir.faulty)
            == SetupOutcome(BaseOffsets(l.segments), err)
    ensures forall j :: 0 <= j < |l.segments| ==>
      fresh(l.segments[j]) && !l.segments[j].closed
      && l.segments[j].records == Stored(old(dir.stores), l.segments[j].baseOffset)
    ensures err.None? ==> l.segments != []
    ensures l.segments != [] ==> l.Valid() && l.ActiveIsLast()
    ensures forall b :: Stored(dir.stores, b) == Stored(old(dir.stores), b)
  {
    l := new Log(dir, WithDefaults(cfg));
    ghost var added;
    err, added := l.Setup(listing);
    assert l.segments == added;
    if err.None? {
      SetupPlanNonEmpty(ReadDir(dir.present, listing), cfg.initialOffset, dir.faulty);
    }
  }
}
