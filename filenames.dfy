/** The naming of segment files and the part of Log.setup that turns a
    directory listing into the sorted list of base offsets to open. */
module FileNames {
  import opened Common

  const storeSuffix: string := ".store"
  const indexSuffix: string := ".index"

  /** The largest uint64; strconv.ParseUint with bit size 0 rejects anything above it. */
  const maxUint64: nat := 0xFFFF_FFFF_FFFF_FFFF

  /** strings.HasSuffix: s is some string followed by suffix. */
  predicate HasSuffix(s: string, suffix: string): (r: bool)
    ensures r <==> |suffix| <= |s| && s[..|s| - |suffix|] + suffix == s
  {
    |suffix| <= |s| && s[|s| - |suffix|..] == suffix
  }

  /** strings.TrimSuffix */
  function TrimSuffix(s: string, suffix: string): (r: string)
    ensures HasSuffix(s, suffix) ==> r + suffix == s
    ensures !HasSuffix(s, suffix) ==> r == s
  {
    if HasSuffix(s, suffix) then s[..|s| - |suffix|] else s
  }

  predicate IsDigit(c: char) { '0' <= c <= '9' }

  predicate AllDigits(s: string) { forall i :: 0 <= i < |s| ==> IsDigit(s[i]) }

  function DigitValue(c: char): nat
    requires IsDigit(c)
  {
    c as int - '0' as int
  }

  function Digit(d: nat): (c: char)
    requires d < 10
    ensures IsDigit(c) && DigitValue(c) == d
  {
    ('0' as int + d) as char
  }

  /** The number a string of decimal digits denotes, most significant digit first. */
  function DecimalValue(s: string): nat
    requires AllDigits(s)
  {
    if s == [] then 0 else DecimalValue(s[..|s| - 1]) * 10 + DigitValue(s[|s| - 1])
  }

  /** A prefix of a digit string never denotes more than the whole string. */
  lemma {:induction false} DecimalValuePrefix(s: string, i: nat)
    requires AllDigits(s) && i <= |s|
    ensures DecimalValue(s[..i]) <= DecimalValue(s)
  {
    if i == |s| {
      assert s[..i] == s;
    } else {
      DecimalValuePrefix(s[..|s| - 1], i);
      assert s[..|s| - 1][..i] == s[..i];
    }
  }

  /** strconv.ParseUint(s, 10, 0): decimal digits only, no sign, no
      underscores, at least one digit, value at most maxUint64. */
  function ParseUint(s: string): (r: Result<nat>)
    ensures r.Ok? <==> s != [] && AllDigits(s) && DecimalValue(s) <= maxUint64
    ensures r.Ok? ==> r.value == DecimalValue(s)
    ensures r.Err? ==> r.error.NumError? && r.error.num == s
  {
    if s == [] then Err(NumError(s, ErrSyntax)) else ScanDigits(s, 0, 0)
  }

  /** The digit loop of ParseUint: acc is the value of s[..i]; the first
      non-digit is a syntax error, the first digit that overflows a range error. */
  function ScanDigits(s: string, i: nat, acc: nat): (r: Result<nat>)
    requires i <= |s| && AllDigits(s[..i]) && acc == DecimalValue(s[..i]) && acc <= maxUint64
    ensures r.Ok? <==> AllDigits(s) && DecimalValue(s) <= maxUint64
    ensures r.Ok? ==> r.value == DecimalValue(s)
    ensures r.Err? ==> r.error.NumError? && r.error.num == s
    decreases |s| - i
  {
    if i == |s| then
      assert s[..i] == s;
      Ok(acc)
    else if !IsDigit(s[i]) then
      Err(NumError(s, ErrSyntax))
    else
      assert s[..i + 1][..i] == s[..i];
      assert AllDigits(s[..i + 1]);
      assert DecimalValue(s[..i + 1]) == acc * 10 + DigitValue(s[i]);
      if acc * 10 + DigitValue(s[i]) > maxUint64 then
        (if AllDigits(s) then DecimalValuePrefix(s, i + 1); Err(NumError(s, ErrRange))
         else Err(NumError(s, ErrRange)))
      else
        ScanDigits(s, i + 1, acc * 10 + DigitValue(s[i]))
  }

  /** The decimal form of n without leading zeros, as fmt's %d writes it. */
  function FormatUint(n: nat): (s: string)
    ensures s != [] && AllDigits(s) && DecimalValue(s) == n
    decreases n
  {
    if n < 10 then
      assert [Digit(n)][..0] == [];
      [Digit(n)]
    else
      var s := FormatUint(n / 10) + [Digit(n % 10)];
      assert s[..|s| - 1] == FormatUint(n / 10);
      s
  }

  function StoreFileName(base: nat): string { FormatUint(base) + storeSuffix }

  function IndexFileName(base: nat): string { FormatUint(base) + indexSuffix }

  /** The base offset a directory entry names, if it is a store file (log.go's
      HasSuffix / TrimSuffix / ParseUint sequence). */
  predicate IsStoreFile(name: string) { HasSuffix(name, storeSuffix) }

  function StorePrefix(name: string): string { TrimSuffix(name, storeSuffix) }

  /** One step of the collection: the offsets so far, extended by the next
      directory entry; an earlier error stays, and a store file whose prefix
      does not parse gives its error. */
  function Step(acc: Result<seq<nat>>, name: string): Result<seq<nat>>
  {
    match acc
    case Err(e) => Err(e)
    case Ok(offs) =>
      if !IsStoreFile(name) then Ok(offs)
      else
        match ParseUint(StorePrefix(name))
        case Err(e) => Err(e)
        case Ok(off) => Ok(offs + [off])
  }

  /** The base offsets collected from a listing, in listing order; the first
      store file whose prefix does not parse aborts with its error. */
  function StoreOffsets(names: seq<string>): (r: Result<seq<nat>>)
    ensures r.Ok? ==> |r.value| <= |names|
  {
    if names == [] then Ok([]) else Step(StoreOffsets(names[..|names| - 1]), names[|names| - 1])
  }

  /** The collection over a prefix one entry longer is one more step. */
  lemma StoreOffsetsPrefix(names: seq<string>, i: nat)
    requires i < |names|
    ensures StoreOffsets(names[..i + 1]) == Step(StoreOffsets(names[..i]), names[i])
  {
    assert names[..i + 1][..i] == names[..i];
  }

  /** How many entries of a listing are store files. */
  function StoreFileCount(names: seq<string>): nat
  {
    if names == [] then 0
    else StoreFileCount(names[..|names| - 1]) + (if IsStoreFile(names[|names| - 1]) then 1 else 0)
  }

  /** Collecting succeeds exactly when every store file's prefix parses; then
      it yields one offset per store file, each the value its name denotes. */
  lemma {:induction false} StoreOffsetsSpec(names: seq<string>)
    ensures StoreOffsets(names).Ok? <==>
      forall i :: 0 <= i < |names| && IsStoreFile(names[i]) ==> ParseUint(StorePrefix(names[i])).Ok?
    ensures StoreOffsets(names).Ok? ==> |StoreOffsets(names).value| == StoreFileCount(names)
    ensures StoreOffsets(names).Ok? ==> forall x ::
      x in StoreOffsets(names).value <==>
        exists i :: 0 <= i < |names| && IsStoreFile(names[i]) && ParseUint(StorePrefix(names[i])) == Ok(x)
  {
    if names != [] {
      var init := names[..|names| - 1];
      StoreOffsetsSpec(init);
      assert forall i :: 0 <= i < |init| ==> init[i] == names[i];
      var last := |names| - 1;
      if StoreOffsets(names).Ok? {
        var offs := StoreOffsets(init).value;
        forall x | x in StoreOffsets(names).value
          ensures exists i :: 0 <= i < |names| && IsStoreFile(names[i]) && ParseUint(StorePrefix(names[i])) == Ok(x)
        {
          if x !in offs {
            assert ParseUint(StorePrefix(names[last])) == Ok(x);
          } else {
            var i :| 0 <= i < |init| && IsStoreFile(init[i]) && ParseUint(StorePrefix(init[i])) == Ok(x);
            assert names[i] == init[i];
          }
        }
        forall x | exists i :: 0 <= i < |names| && IsStoreFile(names[i]) && ParseUint(StorePrefix(names[i])) == Ok(x)
          ensures x in StoreOffsets(names).value
        {
          var i :| 0 <= i < |names| && IsStoreFile(names[i]) && ParseUint(StorePrefix(names[i])) == Ok(x);
          if i < last {
            assert init[i] == names[i];
          }
        }
      }
    }
  }

  /** An error in the listing read so far is the error of the whole listing. */
  lemma {:induction false} StoreOffsetsErrorSticks(names: seq<string>, i: nat)
    requires i <= |names| && StoreOffsets(names[..i]).Err?
    ensures StoreOffsets(names) == StoreOffsets(names[..i])
    decreases |names| - i
  {
    if i == |names| {
      assert names[..i] == names;
    } else {
      assert names[..i + 1][..i] == names[..i];
      StoreOffsetsErrorSticks(names, i + 1);
    }
  }

  /** A listing without store files collects no offsets. */
  lemma {:induction false} StoreOffsetsNone(names: seq<string>)
    requires forall i :: 0 <= i < |names| ==> !IsStoreFile(names[i])
    ensures StoreOffsets(names) == Ok([])
  {
    if names != [] {
      StoreOffsetsNone(names[..|names| - 1]);
    }
  }

  /** Collecting fails only on a store file name that does not parse. */
  lemma {:induction false} StoreOffsetsErrorIsParse(names: seq<string>)
    ensures StoreOffsets(names).Err? ==> StoreOffsets(names).error.NumError?
  {
    if names != [] {
      StoreOffsetsErrorIsParse(names[..|names| - 1]);
    }
  }

  /** The files a segment at each of the given bases leaves in the directory. */
  function SegmentFileNames(bases: seq<nat>): seq<string>
  {
    if bases == [] then []
    else SegmentFileNames(bases[..|bases| - 1])
         + [IndexFileName(bases[|bases| - 1]), StoreFileName(bases[|bases| - 1])]
  }

  /** A store file name written for a base parses back to that base. */
  lemma StoreFileNameRoundTrip(base: nat)
    requires base <= maxUint64
    ensures IsStoreFile(StoreFileName(base))
    ensures ParseUint(StorePrefix(StoreFileName(base))) == Ok(base)
  {
    var st := StoreFileName(base);
    assert st[|st| - |storeSuffix|..] == storeSuffix;
    assert StorePrefix(st) + storeSuffix == FormatUint(base) + storeSuffix;
    assert StorePrefix(st) == (FormatUint(base) + storeSuffix)[..|FormatUint(base)|];
  }

  /** An index file name is never taken for a store file. */
  lemma IndexFileNameIsNotStore(base: nat)
    ensures !IsStoreFile(IndexFileName(base))
  {
    var idx := IndexFileName(base);
    assert idx[|idx| - 1] == 'x';
  }

  /** The two files of a segment at base b, listed after names that
      collect to offs, add exactly b. */
  lemma SegmentFilesStep(names: seq<string>, offs: seq<nat>, b: nat)
    requires StoreOffsets(names) == Ok(offs) && b <= maxUint64
    ensures StoreOffsets(names + [IndexFileName(b), StoreFileName(b)]) == Ok(offs + [b])
  {
    var withIndex := names + [IndexFileName(b)];
    var all := withIndex + [StoreFileName(b)];
    assert names + [IndexFileName(b), StoreFileName(b)] == all;
    IndexFileNameIsNotStore(b);
    assert withIndex[..|withIndex| - 1] == names;
    assert StoreOffsets(withIndex) == Ok(offs);
    StoreFileNameRoundTrip(b);
    assert all[..|all| - 1] == withIndex;
  }

  /** Reading back the names newSegment's files carry yields the bases again,
      in the same order: setup recovers what earlier segments wrote. */
  lemma {:induction false} SegmentFileNamesRoundTrip(bases: seq<nat>)
    requires forall b :: b in bases ==> b <= maxUint64
    ensures StoreOffsets(SegmentFileNames(bases)) == Ok(bases)
  {
    if bases != [] {
      var init := bases[..|bases| - 1];
      var b := bases[|bases| - 1];
      assert forall c :: c in init ==> c in bases;
      SegmentFileNamesRoundTrip(init);
      assert b in bases;
      SegmentFilesStep(SegmentFileNames(init), init, b);
      assert init + [b] == bases;
    }
  }

  /** log.go:43-53 written as the loop it is: walk the listing, keep the
      store files, parse each prefix, stop at the first parse failure. */
  method ScanStoreOffsets(names: seq<string>) returns (r: Result<seq<nat>>)
    ensures r == StoreOffsets(names)
  {
    var offs: seq<nat> := [];
    var i := 0;
    while i < |names|
      invariant 0 <= i <= |names|
      invariant StoreOffsets(names[..i]) == Ok(offs)
    {
      var name := names[i];
      StoreOffsetsPrefix(names, i);
      if IsStoreFile(name) {
        var parsed := ParseUint(StorePrefix(name));
        if parsed.Err? {
          StoreOffsetsErrorSticks(names, i + 1);
          return Err(parsed.error);
        }
        offs := offs + [parsed.value];
      }
      i := i + 1;
    }
    assert names[..i] == names;
    r := Ok(offs);
  }

  /** Element i of xs is at most element j. */
  predicate LeAt(xs: seq<nat>, i: nat, j: nat)
    requires i < |xs| && j < |xs|
  {
    xs[i] <= xs[j]
  }

  predicate SortedAsc(xs: seq<nat>) {
    forall i, j :: 0 <= i < j < |xs| ==> LeAt(xs, i, j)
  }

  /** A value at most the head of an ascending list can go in front of it. */
  lemma SortedCons(x: nat, xs: seq<nat>)
    requires SortedAsc(xs) && (xs == [] || x <= xs[0])
    ensures SortedAsc([x] + xs)
  {
    var r := [x] + xs;
    forall i, j | 0 <= i < j < |r| ensures LeAt(r, i, j) {
      if i > 0 {
        assert LeAt(xs, i - 1, j - 1);
      } else if j > 1 {
        assert LeAt(xs, 0, j - 1);
      }
    }
  }

  /** A prefix of an ascending list is ascending. */
  lemma SortedPrefix(xs: seq<nat>, k: nat)
    requires SortedAsc(xs) && k <= |xs|
    ensures SortedAsc(xs[..k])
  {
    forall i, j | 0 <= i < j < k ensures LeAt(xs[..k], i, j) {
      assert LeAt(xs, i, j);
    }
  }

  /** The tail of an ascending list is ascending. */
  lemma SortedTail(xs: seq<nat>)
    requires SortedAsc(xs) && xs != []
    ensures SortedAsc(xs[1..])
  {
    var tail := xs[1..];
    forall i, j | 0 <= i < j < |tail| ensures LeAt(tail, i, j) {
      assert LeAt(xs, i + 1, j + 1);
    }
  }

  /** The head of an ascending list goes in front of any ascending
      rearrangement of its tail with a larger value added. */
  lemma SortedHeadBack(xs: seq<nat>, x: nat, rest: seq<nat>)
    requires SortedAsc(xs) && xs != [] && xs[0] < x
    requires SortedAsc(rest) && multiset(rest) == multiset(xs[1..]) + multiset{x}
    ensures SortedAsc([xs[0]] + rest)
  {
    var tail := xs[1..];
    var r := [xs[0]] + rest;
    forall k | 0 <= k < |rest| ensures xs[0] <= rest[k] {
      assert rest[k] in multiset(rest);
      if rest[k] != x {
        assert rest[k] in multiset(tail);
        var m :| 0 <= m < |tail| && tail[m] == rest[k];
        assert LeAt(xs, 0, m + 1);
      }
    }
    forall i, j | 0 <= i < j < |r| ensures LeAt(r, i, j) {
      if i > 0 {
        assert LeAt(rest, i - 1, j - 1);
      }
    }
  }

  /** Inserts x into an ascending list, before the first element not below it. */
  function Insert(x: nat, xs: seq<nat>): (r: seq<nat>)
    requires SortedAsc(xs)
    ensures |r| == |xs| + 1
    ensures SortedAsc(r) && multiset(r) == multiset(xs) + multiset{x}
  {
    if xs == [] || x <= xs[0] then
      SortedCons(x, xs);
      [x] + xs
    else
      assert xs == [xs[0]] + xs[1..];
      SortedTail(xs);
      var rest := Insert(x, xs[1..]);
      SortedHeadBack(xs, x, rest);
      [xs[0]] + rest
  }

  /** sort.Slice with the "<" order on the collected base offsets. */
  function SortAscending(xs: seq<nat>): (r: seq<nat>)
    ensures SortedAsc(r) && multiset(r) == multiset(xs)
  {
    if xs == [] then []
    else
      assert xs == [xs[0]] + xs[1..];
      Insert(xs[0], SortAscending(xs[1..]))
  }

  /** In an ascending list the last element is the largest: the segment
      opened last by setup has the largest base offset. */
  lemma SortedLastIsMax(xs: seq<nat>, x: nat)
    requires SortedAsc(xs) && x in xs
    ensures x <= xs[|xs| - 1]
  {
    var i :| 0 <= i < |xs| && xs[i] == x;
    if i < |xs| - 1 {
      assert LeAt(xs, i, |xs| - 1);
    }
  }

  /** The last element of the sorted list bounds every element of the input. */
  lemma SortAscendingLastIsMax(xs: seq<nat>)
    requires xs != []
    ensures |SortAscending(xs)| == |xs|
    ensures forall x :: x in xs ==> x <= SortAscending(xs)[|xs| - 1]
  {
    var sorted := SortAscending(xs);
    assert |sorted| == |multiset(sorted)| == |multiset(xs)| == |xs|;
    forall x | x in xs ensures x <= sorted[|xs| - 1] {
      assert x in multiset(xs);
      assert x in sorted;
      SortedLastIsMax(sorted, x);
    }
  }

  /** Sorting a list that is already ascending leaves it as it is. */
  lemma {:induction false} SortAscendingSorted(xs: seq<nat>)
    requires SortedAsc(xs)
    ensures SortAscending(xs) == xs
  {
    if xs != [] {
      SortedTail(xs);
      SortAscendingSorted(xs[1..]);
      if |xs| > 1 {
        assert LeAt(xs, 0, 1);
      }
      assert [xs[0]] + xs[1..] == xs;
    }
  }
}
