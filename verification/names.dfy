/** File names: `<base offset>.store` and `<base offset>.index`, and reading the base offset back. */
module Names {
  import opened Seqs
  import opened Wire

  function DigitChar(d: nat): char
    requires d < 10
  {
    ['0', '1', '2', '3', '4', '5', '6', '7', '8', '9'][d]
  }

  function DigitValue(c: char): Option<nat> {
    if '0' <= c <= '9' then Some((c - '0') as nat) else None
  }

  /** `fmt.Sprintf("%d", n)`. */
  function Decimal(n: nat): (s: string)
    ensures |s| > 0
    ensures forall i :: 0 <= i < |s| ==> '0' <= s[i] <= '9'
  {
    if n < 10 then [DigitChar(n)] else Decimal(n / 10) + [DigitChar(n % 10)]
  }

  /** `strconv.ParseUint(s, 10, 0)` on a 64-bit machine with its error dropped: zero for anything that is
      not a number, the largest value for a number out of range. */
  function ParseUint(s: string): u64 {
    if s == [] then 0 else ParseDigits(s, 0)
  }

  function ParseDigits(s: string, n: u64): u64 {
    if s == [] then n
    else match DigitValue(s[0])
      case None => 0
      case Some(d) => if n * 10 + d >= TWO_64 then TWO_64 - 1 else ParseDigits(s[1..], n * 10 + d)
  }

  /** The position of the last dot, or the length when there is none. */
  function LastDot(s: string): (k: nat)
    ensures k <= |s|
  {
    if s == [] then 0
    else if s[|s| - 1] == '.' then |s| - 1
    else
      var k := LastDot(s[..|s| - 1]);
      if k == |s| - 1 then |s| else k
  }

  /** The file name without `path.Ext(name)`. */
  function Stem(name: string): string {
    name[..LastDot(name)]
  }

  /** The two files of a segment. */
  datatype FileName = StoreFile(base: u64) | IndexFile(base: u64)
  {
    /** The name in the directory. */
    function Text(): string {
      Decimal(base) + if StoreFile? then ".store" else ".index"
    }
  }

  lemma {:induction false} DigitsBeforeDot(s: string, ext: string)
    requires forall i :: 0 <= i < |ext| ==> ext[i] != '.'
    ensures LastDot(s + "." + ext) == |s|
    decreases |ext|
  {
    var name := s + "." + ext;
    if ext != [] {
      ConcatSnoc(s + ".", ext);
      SnocInit(s + "." + ext[..|ext| - 1], ext[|ext| - 1]);
      DigitsBeforeDot(s, ext[..|ext| - 1]);
    }
  }

  lemma StemOfName(name: FileName)
    ensures Stem(name.Text()) == Decimal(name.base)
  {
    var ext := if name.StoreFile? then "store" else "index";
    DigitsBeforeDot(Decimal(name.base), ext);
    assert ".store" == "." + "store" && ".index" == "." + "index";
    Assoc(Decimal(name.base), ".", ext);
  }

  lemma DigitRoundTrip(d: nat)
    requires d < 10
    ensures DigitValue(DigitChar(d)) == Some(d)
  {
  }

  lemma {:induction false} ParseDecimalThen(n: nat, rest: string)
    requires n < TWO_64
    ensures ParseDigits(Decimal(n) + rest, 0) == ParseDigits(rest, n)
    decreases n
  {
    hide ParseDigits, DigitChar;
    if n < 10 {
      ParseDigit(n, rest, 0);
    } else {
      Assoc(Decimal(n / 10), [DigitChar(n % 10)], rest);
      ParseDecimalThen(n / 10, [DigitChar(n % 10)] + rest);
      ParseDigit(n % 10, rest, n / 10);
    }
  }

  lemma ParseDigit(d: nat, rest: string, n: u64)
    requires d < 10 && n * 10 + d < TWO_64
    ensures ParseDigits([DigitChar(d)] + rest, n) == ParseDigits(rest, n * 10 + d)
  {
    DigitRoundTrip(d);
    hide DigitValue, DigitChar;
    assert ([DigitChar(d)] + rest)[1..] == rest;
  }

  /** The base offset comes back from either file name, which is its decimal with the file's extension. */
  lemma ParseOfName(name: FileName)
    ensures name.Text() == Decimal(name.base) + (if name.StoreFile? then ".store" else ".index")
    ensures ParseUint(Stem(name.Text())) == name.base
  {
    StemOfName(name);
    ParseDecimalThen(name.base, "");
    NilRight(Decimal(name.base));
  }

  /** Different files have different names. */
  lemma NamesDiffer(m: FileName, n: FileName)
    requires m != n
    ensures m.Text() != n.Text()
  {
    ParseOfName(m);
    ParseOfName(n);
    var s, t := m.Text(), n.Text();
    assert m.base == n.base ==> s[|s| - 1] != t[|t| - 1];
  }

  /** Numbers are written in decimal. */
  lemma DecimalExample()
    ensures Decimal(9876543210) == "9876543210"
  {
    assert Decimal(9) == "9";
    hide Decimal;
    DecimalStep(98);
    DecimalStep(987);
    DecimalStep(9876);
    DecimalStep(98765);
    DecimalStep(987654);
    DecimalStep(9876543);
    DecimalStep(98765432);
    DecimalStep(987654321);
    DecimalStep(9876543210);
  }

  lemma DecimalStep(n: nat)
    requires n >= 10
    ensures Decimal(n) == Decimal(n / 10) + [DigitChar(n % 10)]
  {
  }

  // ---------------------------------------------------------------------------------------------
  // Sorting, and the scan of a directory listing

  predicate IsSorted(s: seq<nat>) {
    forall i, j :: 0 <= i < j < |s| ==> s[i] <= s[j]
  }

  function Insert(x: nat, s: seq<nat>): seq<nat> {
    if s == [] || x <= s[0] then [x] + s else [s[0]] + Insert(x, s[1..])
  }

  lemma {:induction false} InsertAdds(x: nat, s: seq<nat>)
    ensures multiset(Insert(x, s)) == multiset(s) + multiset{x}
  {
    if s != [] && x > s[0] {
      InsertAdds(x, s[1..]);
      UnCons(s);
    }
  }

  lemma {:induction false} InsertSorts(x: nat, s: seq<nat>)
    requires IsSorted(s)
    ensures IsSorted(Insert(x, s))
  {
    if s != [] && x > s[0] {
      InsertSorts(x, s[1..]);
      InsertBounded(x, s[1..], s[0]);
      SortedCons(s[0], Insert(x, s[1..]));
    }
  }

  lemma {:induction false} InsertBounded(x: nat, s: seq<nat>, low: nat)
    requires low <= x && forall i :: 0 <= i < |s| ==> low <= s[i]
    ensures forall i :: 0 <= i < |Insert(x, s)| ==> low <= Insert(x, s)[i]
  {
    if s != [] && x > s[0] {
      InsertBounded(x, s[1..], low);
    }
  }

  lemma SortedCons(low: nat, s: seq<nat>)
    requires IsSorted(s) && forall i :: 0 <= i < |s| ==> low <= s[i]
    ensures IsSorted([low] + s)
  {
  }

  /** `sort.Slice` in ascending order. */
  function Sort(s: seq<nat>): (r: seq<nat>)
    ensures IsSorted(r) && multiset(r) == multiset(s)
  {
    if s == [] then []
    else
      UnCons(s);
      InsertSorts(s[0], Sort(s[1..]));
      InsertAdds(s[0], Sort(s[1..]));
      Insert(s[0], Sort(s[1..]))
  }

  /** A sorted sequence is determined by its elements. */
  lemma {:induction false} SortedUnique(a: seq<nat>, b: seq<nat>)
    requires IsSorted(a) && IsSorted(b) && multiset(a) == multiset(b)
    ensures a == b
    decreases |a|
  {
    assert |a| == |multiset(a)| == |multiset(b)| == |b|;
    if a != [] {
      assert a[0] in multiset(b) && b[0] in multiset(a);
      assert a[0] == b[0];
      UnCons(a);
      UnCons(b);
      assert multiset(a[1..]) == multiset(a) - multiset{a[0]};
      assert multiset(b[1..]) == multiset(b) - multiset{b[0]};
      SortedUnique(a[1..], b[1..]);
    }
  }

  /** The names in a listing, as text. */
  function Texts(names: seq<FileName>): seq<string> {
    seq(|names|, i requires 0 <= i < |names| => names[i].Text())
  }

  /** The base offsets that `setup` parses from a listing. */
  function ParsedBases(listing: seq<string>): seq<nat> {
    seq(|listing|, i requires 0 <= i < |listing| => ParseUint(Stem(listing[i])))
  }

  function BasesOf(names: seq<FileName>): seq<nat> {
    seq(|names|, i requires 0 <= i < |names| => names[i].base)
  }

  lemma ParsedTexts(names: seq<FileName>)
    ensures ParsedBases(Texts(names)) == BasesOf(names)
  {
    forall i | 0 <= i < |names| ensures ParsedBases(Texts(names))[i] == names[i].base {
      ParseOfName(names[i]);
    }
  }

  /** One store file and one index file for each base offset. */
  function PairNames(bases: seq<u64>): seq<FileName> {
    if bases == [] then []
    else PairNames(bases[..|bases| - 1]) + [StoreFile(bases[|bases| - 1]), IndexFile(bases[|bases| - 1])]
  }

  function Twice(bases: seq<nat>): (r: seq<nat>)
    ensures |r| == 2 * |bases|
    ensures forall i :: 0 <= i < |bases| ==> r[2 * i] == r[2 * i + 1] == bases[i]
  {
    if bases == [] then []
    else Twice(bases[..|bases| - 1]) + [bases[|bases| - 1], bases[|bases| - 1]]
  }

  ghost predicate StrictlyAscending(bases: seq<nat>) {
    forall i, j :: 0 <= i < j < |bases| ==> bases[i] < bases[j]
  }

  lemma BasesConcat(a: seq<FileName>, b: seq<FileName>)
    ensures BasesOf(a + b) == BasesOf(a) + BasesOf(b)
  {
  }

  lemma {:induction false} BasesOfPairs(bases: seq<u64>)
    ensures BasesOf(PairNames(bases)) == Twice(bases)
  {
    if bases != [] {
      var front, last := bases[..|bases| - 1], bases[|bases| - 1];
      BasesOfPairs(front);
      BasesConcat(PairNames(front), [StoreFile(last), IndexFile(last)]);
    }
  }

  lemma BasesWithout(b: seq<FileName>, k: nat)
    requires k < |b|
    ensures multiset(BasesOf(b)) == multiset(BasesOf(b[..k] + b[k + 1..])) + multiset{b[k].base}
  {
    SplitAt(b, k + 1);
    TakeOneMore(b, k);
    BasesConcat(b[..k + 1], b[k + 1..]);
    BasesConcat(b[..k], [b[k]]);
    assert BasesOf([b[k]]) == [b[k].base];
    BasesConcat(b[..k], b[k + 1..]);
  }

  lemma WithoutSame(a: seq<FileName>, b: seq<FileName>, k: nat)
    requires multiset(a) == multiset(b) && a != [] && k < |b| && b[k] == a[0]
    ensures multiset(a[..0] + a[1..]) == multiset(b[..k] + b[k + 1..])
  {
    MultisetWithout(a, 0);
    MultisetWithout(b, k);
    SumCancels(multiset(a[..0] + a[1..]), multiset(b[..k] + b[k + 1..]), a[0]);
  }

  /** Listing the same files in another order gives the same numbers in another order. */
  lemma {:induction false} BasesPermutation(a: seq<FileName>, b: seq<FileName>)
    requires multiset(a) == multiset(b)
    ensures multiset(BasesOf(a)) == multiset(BasesOf(b))
    decreases |a|
  {
    if a == [] {
      assert |b| == |multiset(b)| == |multiset(a)| == 0;
    } else {
      assert a[0] in multiset(a);
      var k :| 0 <= k < |b| && b[k] == a[0];
      WithoutSame(a, b, k);
      BasesPermutation(a[..0] + a[1..], b[..k] + b[k + 1..]);
      BasesWithout(a, 0);
      BasesWithout(b, k);
    }
  }

  /** The names of these bases. */
  ghost predicate AreNamesOf(keys: set<FileName>, bases: seq<u64>) {
    forall n :: n in keys <==> exists i :: 0 <= i < |bases| && bases[i] == n.base
  }

  /** The listing of a directory with exactly one store and one index file for each base. */
  lemma {:induction false} PairNamesAreKeys(bases: seq<u64>, keys: set<FileName>)
    requires StrictlyAscending(bases) && AreNamesOf(keys, bases)
    ensures multiset(PairNames(bases)) == multiset(keys)
  {
    if bases == [] {
      assert keys == {};
    } else {
      var k := |bases| - 1;
      WithoutLast(bases, keys);
      hide AreNamesOf;
      PairNamesAreKeys(bases[..k], keys - {StoreFile(bases[k]), IndexFile(bases[k])});
      WithPair(keys, StoreFile(bases[k]), IndexFile(bases[k]));
    }
  }

  lemma WithoutLast(bases: seq<u64>, keys: set<FileName>)
    requires StrictlyAscending(bases) && AreNamesOf(keys, bases) && bases != []
    ensures StoreFile(bases[|bases| - 1]) in keys && IndexFile(bases[|bases| - 1]) in keys
    ensures AreNamesOf(keys - {StoreFile(bases[|bases| - 1]), IndexFile(bases[|bases| - 1])}, bases[..|bases| - 1])
  {
    var k := |bases| - 1;
    var front, last := bases[..k], bases[k];
    assert last == StoreFile(last).base == IndexFile(last).base;
    forall n
      ensures n in keys - {StoreFile(last), IndexFile(last)} <==> exists i :: 0 <= i < |front| && front[i] == n.base
    {
      if n in keys - {StoreFile(last), IndexFile(last)} {
        var i :| 0 <= i < |bases| && bases[i] == n.base;
        assert i < k && front[i] == n.base;
      }
      if i :| 0 <= i < |front| && front[i] == n.base {
        assert bases[i] == n.base;
      }
    }
  }

  lemma WithPair(keys: set<FileName>, a: FileName, b: FileName)
    requires a in keys && b in keys && a != b
    ensures multiset(keys) == multiset(keys - {a, b}) + multiset([a, b])
  {
  }

  lemma TwiceSorted(bases: seq<nat>)
    requires StrictlyAscending(bases)
    ensures IsSorted(Twice(bases))
  {
    var t := Twice(bases);
    forall i, j | 0 <= i < j < |t| ensures t[i] <= t[j] {
      assert t[i] == bases[i / 2] by { assert i == 2 * (i / 2) || i == 2 * (i / 2) + 1; }
      assert t[j] == bases[j / 2] by { assert j == 2 * (j / 2) || j == 2 * (j / 2) + 1; }
    }
  }

  /** In whatever order a directory lists one store and one index file per base, the sorted parsed
      offsets are the bases in ascending order, each twice. */
  lemma ScanFindsBases(names: seq<FileName>, bases: seq<u64>)
    requires StrictlyAscending(bases)
    requires multiset(names) == multiset(PairNames(bases))
    ensures Sort(ParsedBases(Texts(names))) == Twice(bases)
  {
    ParsedTexts(names);
    BasesPermutation(names, PairNames(bases));
    BasesOfPairs(bases);
    TwiceSorted(bases);
    SortedUnique(Sort(ParsedBases(Texts(names))), Twice(bases));
  }

  // ---------------------------------------------------------------------------------------------
  // Directories in which files are missing

  /** What the loop of `setup` opens: it steps over every other offset. */
  function EveryOther(s: seq<nat>): seq<nat> {
    if |s| <= 1 then s else [s[0]] + EveryOther(s[2..])
  }

  /** The same for what follows an offset that was opened. */
  function AfterFirst(s: seq<nat>): seq<nat> {
    if s == [] then [] else EveryOther(s[1..])
  }

  ghost predicate AtMostTwice(s: seq<nat>) {
    IsSorted(s) && forall v :: multiset(s)[v] <= 2
  }

  ghost predicate AllIn(s: seq<nat>, r: seq<nat>) {
    forall v :: v in s ==> v in r
  }

  ghost predicate Once(s: seq<nat>, v: nat) {
    multiset(s)[v] == 1
  }

  ghost predicate NoneOnce(s: seq<nat>) {
    forall v :: !Once(s, v)
  }

  ghost predicate AtMostOneOnce(s: seq<nat>) {
    forall u, v :: Once(s, u) && Once(s, v) ==> u == v
  }

  lemma {:induction false} EveryOtherIn(s: seq<nat>)
    ensures AllIn(EveryOther(s), s)
  {
    if |s| > 1 {
      EveryOtherIn(s[2..]);
    }
  }

  lemma SortedRest(s: seq<nat>, k: nat)
    requires AtMostTwice(s) && k <= |s|
    ensures AtMostTwice(s[k..])
  {
    SplitAt(s, k);
    assert multiset(s) == multiset(s[..k]) + multiset(s[k..]);
    forall v ensures multiset(s[k..])[v] <= 2 {
      assert multiset(s)[v] == multiset(s[..k])[v] + multiset(s[k..])[v];
    }
  }

  /** A first offset that differs from the second occurs once, and not later. */
  lemma LoneFirst(s: seq<nat>)
    requires AtMostTwice(s) && s != [] && (|s| > 1 ==> s[0] != s[1])
    ensures Once(s, s[0]) && s[0] !in s[1..] && forall v :: v != s[0] ==> (Once(s, v) <==> Once(s[1..], v))
    ensures !Once(s[1..], s[0])
  {
    UnCons(s);
    assert multiset(s) == multiset{s[0]} + multiset(s[1..]);
    assert forall i :: 1 <= i < |s| ==> s[0] < s[1] <= s[i];
    assert s[0] !in multiset(s[1..]);
  }

  /** Two equal first offsets occur twice, and not later. */
  lemma PairFirst(s: seq<nat>)
    requires AtMostTwice(s) && |s| > 1 && s[0] == s[1]
    ensures !Once(s, s[0]) && s[0] !in s[2..] && forall v :: v != s[0] ==> (Once(s, v) <==> Once(s[2..], v))
    ensures !Once(s[2..], s[0])
  {
    SplitAt(s, 2);
    assert s[..2] == [s[0], s[0]];
    assert multiset(s) == multiset(s[..2]) + multiset(s[2..]);
    assert multiset(s)[s[0]] == 2 + multiset(s[2..])[s[0]];
  }

  lemma AllInCons(a: nat, s: seq<nat>, s': seq<nat>, r: seq<nat>)
    requires a !in s && forall v :: v in s' <==> v == a || v in s
    ensures AllIn(s', [a] + r) <==> AllIn(s, r)
  {
  }

  /** After an offset that was opened, all others are opened exactly when each of them occurs twice. */
  lemma {:induction false} AfterFirstIff(s: seq<nat>)
    requires AtMostTwice(s)
    ensures AllIn(s, AfterFirst(s)) <==> NoneOnce(s)
  {
    hide AtMostTwice, Once, AllIn;
    if s == [] {
      NothingOnce();
    } else if |s| > 1 && s[0] == s[1] {
      PairFirst(s);
      SortedRest(s, 2);
      AfterFirstIff(s[2..]);
      if |s| > 2 {
        assert s[1..][2..] == s[2..][1..];
      }
      assert AfterFirst(s) == [s[0]] + AfterFirst(s[2..]);
      AllInCons(s[0], s[2..], s, AfterFirst(s[2..]));
    } else {
      LoneFirst(s);
      EveryOtherIn(s[1..]);
      NotAllIn(s, EveryOther(s[1..]), s[1..], s[0]);
    }
  }

  lemma NothingOnce()
    ensures NoneOnce([]) && AllIn([], [])
  {
  }

  lemma NotAllIn(s: seq<nat>, r: seq<nat>, t: seq<nat>, v: nat)
    requires v in s && AllIn(r, t) && v !in t
    ensures !AllIn(s, r)
  {
  }

  /** Every offset is opened exactly when at most one of them occurs once. */
  lemma {:induction false} EveryOtherIff(s: seq<nat>)
    requires AtMostTwice(s)
    ensures AllIn(s, EveryOther(s)) <==> AtMostOneOnce(s)
  {
    hide AtMostTwice, Once, AllIn;
    if s == [] {
      NothingOnce();
    } else if |s| > 1 && s[0] == s[1] {
      PairFirst(s);
      SortedRest(s, 2);
      EveryOtherIff(s[2..]);
      AllInCons(s[0], s[2..], s, EveryOther(s[2..]));
    } else {
      LoneFirst(s);
      SortedRest(s, 1);
      AfterFirstIff(s[1..]);
      assert EveryOther(s) == [s[0]] + AfterFirst(s[1..]);
      AllInCons(s[0], s[1..], s, AfterFirst(s[1..]));
    }
  }

  lemma {:induction false} EveryOtherAscends(s: seq<nat>)
    requires AtMostTwice(s)
    ensures StrictlyAscending(EveryOther(s))
  {
    if |s| > 1 {
      SortedRest(s, 2);
      EveryOtherAscends(s[2..]);
      EveryOtherIn(s[2..]);
      if s[0] == s[1] {
        PairFirst(s);
      }
      assert forall i :: 2 <= i < |s| ==> s[0] <= s[1] <= s[i];
      assert forall v :: v in s[2..] ==> s[0] < v;
      AscendsCons(s[0], EveryOther(s[2..]));
    }
  }

  lemma AscendsCons(a: nat, s: seq<nat>)
    requires StrictlyAscending(s) && forall v :: v in s ==> a < v
    ensures StrictlyAscending([a] + s)
  {
    forall i, j | 0 <= i < j < |[a] + s| ensures ([a] + s)[i] < ([a] + s)[j] {
      assert s[j - 1] in s;
    }
  }

  /** Each of the two names of a base offset counts once. */
  lemma {:induction false} BaseCount(names: seq<FileName>, b: u64)
    requires forall n :: multiset(names)[n] <= 1
    ensures multiset(BasesOf(names))[b]
            == (if StoreFile(b) in names then 1 else 0) + (if IndexFile(b) in names then 1 else 0)
  {
    if names == [] {
      assert BasesOf(names) == [];
    } else {
      HeadOnce(names);
      BaseCount(names[1..], b);
      BasesHead(names, b);
    }
  }

  lemma HeadOnce(names: seq<FileName>)
    requires names != [] && forall n :: multiset(names)[n] <= 1
    ensures names[0] !in names[1..] && forall n :: multiset(names[1..])[n] <= 1
    ensures forall n :: n in names <==> n == names[0] || n in names[1..]
  {
    UnCons(names);
    assert multiset(names) == multiset{names[0]} + multiset(names[1..]);
    assert multiset(names)[names[0]] == 1 + multiset(names[1..])[names[0]];
    assert names[0] !in multiset(names[1..]);
    forall n ensures multiset(names[1..])[n] <= 1 {
      assert multiset(names[1..])[n] <= multiset(names)[n];
    }
  }

  lemma BasesHead(names: seq<FileName>, b: nat)
    requires names != []
    ensures multiset(BasesOf(names))[b] == (if names[0].base == b then 1 else 0) + multiset(BasesOf(names[1..]))[b]
  {
    UnCons(names);
    BasesConcat([names[0]], names[1..]);
    assert BasesOf([names[0]]) == [names[0].base];
    assert multiset(BasesOf(names)) == multiset{names[0].base} + multiset(BasesOf(names[1..]));
  }

  /** One of the two files of the base offset is listed without the other. */
  ghost predicate Unpaired(names: seq<FileName>, b: u64) {
    (StoreFile(b) in names) != (IndexFile(b) in names)
  }

  ghost predicate AtMostOneUnpaired(names: seq<FileName>) {
    forall a: u64, b: u64 :: Unpaired(names, a) && Unpaired(names, b) ==> a == b
  }

  lemma CountsOfNames(names: seq<FileName>, s: seq<nat>)
    requires forall n :: multiset(names)[n] <= 1
    requires IsSorted(s) && multiset(s) == multiset(BasesOf(names))
    ensures AtMostTwice(s) && (AtMostOneOnce(s) <==> AtMostOneUnpaired(names))
    ensures forall v :: v in s <==> exists n :: n in names && n.base == v
  {
    forall v ensures v in s <==> exists n :: n in names && n.base == v {
      assert v in s <==> v in multiset(BasesOf(names));
      if n :| n in names && n.base == v {
        var i :| 0 <= i < |names| && names[i] == n;
        assert BasesOf(names)[i] == v;
      }
    }
    forall b: u64 ensures multiset(s)[b] <= 2 && (Once(s, b) <==> Unpaired(names, b)) {
      BaseCount(names, b);
    }
    forall v | v >= TWO_64 ensures multiset(s)[v] == 0 {
      assert v !in multiset(BasesOf(names));
    }
  }

  /** Whichever files a directory lists, `setup` opens no base offset twice, and it opens every one that is listed
      exactly when at most one of them misses one of its two files. */
  lemma ScanOpensAllIff(names: seq<FileName>)
    requires forall n :: multiset(names)[n] <= 1
    ensures var found := EveryOther(Sort(ParsedBases(Texts(names))));
            && StrictlyAscending(found) && (forall v :: v in found ==> exists n :: n in names && n.base == v)
            && ((forall n :: n in names ==> n.base in found) <==> AtMostOneUnpaired(names))
  {
    hide AtMostTwice, AtMostOneOnce, AtMostOneUnpaired, Once, StrictlyAscending;
    ParsedTexts(names);
    var s := Sort(BasesOf(names));
    CountsOfNames(names, s);
    EveryOtherAscends(s);
    EveryOtherIn(s);
    EveryOtherIff(s);
  }
}
