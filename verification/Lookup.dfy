/** Reading a value back, with negative list indices (`internal/stepoutput/stepoutput.go`). */
module Lookup {
  import opened Wrappers
  import opened Text
  import opened Keys

  // ---------------------------------------------------------------------------------------------
  // Sorting numbers, and counting them
  // ---------------------------------------------------------------------------------------------

  function CountBelow(s: seq<int>, x: int): (n: nat)
    ensures n <= |s|
  {
    if s == [] then 0 else (if s[0] < x then 1 else 0) + CountBelow(s[1..], x)
  }

  predicate Sorted(s: seq<int>) {
    forall i, j :: 0 <= i < j < |s| ==> s[i] <= s[j]
  }

  function Insert(n: int, s: seq<int>): (r: seq<int>)
    ensures |r| == |s| + 1
  {
    if s == [] || n <= s[0] then [n] + s else [s[0]] + Insert(n, s[1..])
  }

  lemma SortedCons(x: int, rest: seq<int>)
    requires Sorted(rest) && forall k :: k in rest ==> x <= k
    ensures Sorted([x] + rest)
  {
    forall i, j | 0 <= i < j < |[x] + rest| ensures ([x] + rest)[i] <= ([x] + rest)[j] {
      assert rest[j - 1] in rest;
    }
  }

  lemma {:induction false} InsertSorted(n: int, s: seq<int>)
    requires Sorted(s)
    ensures Sorted(Insert(n, s)) && forall k :: k in Insert(n, s) ==> k == n || k in s
  {
    if s == [] {
    } else {
      assert forall k :: k in s ==> s[0] <= k;
      assert Sorted(s[1..]) && forall k :: k in s[1..] ==> k in s;
      hide Sorted;
      if n <= s[0] {
        SortedCons(n, s);
      } else {
        InsertSorted(n, s[1..]);
        SortedCons(s[0], Insert(n, s[1..]));
      }
    }
  }

  lemma {:induction false} InsertCounts(n: int, s: seq<int>, x: int)
    ensures CountBelow(Insert(n, s), x) == CountBelow(s, x) + (if n < x then 1 else 0)
  {
    if s == [] || n <= s[0] {
      assert ([n] + s)[1..] == s;
    } else {
      var rest := Insert(n, s[1..]);
      InsertCounts(n, s[1..], x);
      assert ([s[0]] + rest)[1..] == rest;
    }
  }

  /** `sort.Ints`. */
  function SortInts(s: seq<int>): (r: seq<int>)
    ensures |r| == |s|
  {
    if s == [] then [] else Insert(s[0], SortInts(s[1..]))
  }

  lemma {:induction false} SortIntsSorts(s: seq<int>)
    ensures Sorted(SortInts(s))
  {
    if s == [] {
    } else {
      SortIntsSorts(s[1..]);
      InsertSorted(s[0], SortInts(s[1..]));
    }
  }

  /** Sorting keeps how many numbers lie below any bound, and so how often each number occurs. */
  lemma {:induction false} SortIntsCounts(s: seq<int>, x: int)
    ensures CountBelow(SortInts(s), x) == CountBelow(s, x)
  {
    if s == [] {
    } else {
      SortIntsCounts(s[1..], x);
      InsertCounts(s[0], SortInts(s[1..]), x);
    }
  }

  /** At place `pos` of a sorted list stands the number that has at most `pos` smaller ones and more
      than `pos` that are not larger. */
  lemma {:induction false} SortedRank(s: seq<int>, pos: nat)
    requires Sorted(s) && pos < |s|
    ensures CountBelow(s, s[pos]) <= pos < CountBelow(s, s[pos] + 1)
  {
    if pos == 0 {
      NoneBelow(s, s[0]);
    } else {
      SortedRank(s[1..], pos - 1);
    }
  }

  lemma {:induction false} NoneBelow(s: seq<int>, x: int)
    requires forall i :: 0 <= i < |s| ==> x <= s[i]
    ensures CountBelow(s, x) == 0
  {
    if s == [] {
    } else {
      NoneBelow(s[1..], x);
    }
  }

  // ---------------------------------------------------------------------------------------------
  // The list items below a prefix
  // ---------------------------------------------------------------------------------------------

  /** The index of a key that is a direct, numbered child of the prefix. */
  function ChildIndex(prefix: string, candidate: string): (n: Option<nat>)
    ensures n.Some? ==> n.value <= MAX_INT
  {
    if !(prefix + "." <= candidate) then None
    else
      var tail := candidate[|prefix| + 1..];
      if '.' in tail then None
      else
        match Atoi(tail)
        case Some(n) => if n >= 0 then Some(n) else None
        case None => None
  }

  /** The direct, numbered children of the prefix, with their indices. */
  function Children(names: set<string>, prefix: string): map<string, nat> {
    map k | k in names && ChildIndex(prefix, k).Some? :: ChildIndex(prefix, k).value
  }

  /** The children with an index below `x`, and those with a larger index. */
  function Below(children: map<string, nat>, x: int): set<string> {
    set k | k in children && children[k] < x
  }

  function Larger(children: map<string, nat>, x: int): set<string> {
    set k | k in children && children[k] > x
  }

  /** `x` is the index that stands at place `pos` when all indices are sorted. */
  ghost predicate IsRank(children: map<string, nat>, pos: nat, x: nat) {
    |Below(children, x)| <= pos < |Below(children, x + 1)|
  }

  lemma {:induction false} SubsetSize<T>(a: set<T>, b: set<T>)
    requires a <= b
    ensures |a| <= |b|
  {
    if a == {} {
    } else {
      var x :| x in a;
      SubsetSize(a - {x}, b - {x});
    }
  }

  lemma {:induction false} RankExists(children: map<string, nat>, pos: nat, x: nat)
    requires pos < |Below(children, x)|
    ensures exists r :: IsRank(children, pos, r)
  {
    assert Below(children, 0) == {};
    if x == 0 {
    } else if |Below(children, x - 1)| <= pos {
      assert IsRank(children, pos, x - 1);
    } else {
      RankExists(children, pos, x - 1);
    }
  }

  lemma RankUnique(children: map<string, nat>, pos: nat, x: nat, y: nat)
    requires IsRank(children, pos, x) && IsRank(children, pos, y)
    ensures x == y
  {
    if x < y {
      SubsetSize(Below(children, x + 1), Below(children, y));
    } else if y < x {
      SubsetSize(Below(children, y + 1), Below(children, x));
    }
  }

  ghost predicate Bounded(children: map<string, nat>) {
    forall k :: k in children ==> children[k] <= MAX_INT
  }

  ghost function IndexAt(children: map<string, nat>, pos: nat): (x: nat)
    requires Bounded(children) && pos < |children|
    ensures IsRank(children, pos, x)
  {
    assert Below(children, MAX_INT + 1) == children.Keys;
    RankExists(children, pos, MAX_INT + 1);
    var x :| IsRank(children, pos, x);
    x
  }

  // ---------------------------------------------------------------------------------------------
  // Resolving a key
  // ---------------------------------------------------------------------------------------------

  /** The value a key denotes: what is stored under it, or, if its last segment is a negative index,
      the list item that many places from the end. */
  ghost function Resolved(values: map<string, string>, key: string): Result<Option<string>> {
    if key in values then Ok(Some(values[key]))
    else if !ValidateKey(key, true) then Err
    else
      var parts := Split(key, '.');
      var last := parts[|parts| - 1];
      if !IsNegativeIndex(last) then Ok(None)
      else
        var prefix := Join(parts[..|parts| - 1], '.');
        var children := Children(values.Keys, prefix);
        var pos := |children| + Atoi(last).value;
        if |children| == 0 then Ok(None)
        else if pos < 0 || pos >= |children| then Err
        else
          var item := prefix + "." + Itoa(IndexAt(children, pos));
          Ok(if item in values then Some(values[item]) else None)
  }

  /** The value a consumer makes of an answer, if any. */
  function Answer(r: Result<Option<string>>): Option<string> {
    if r.Ok? then r.value else None
  }

  /** Collects the children's indices, in whatever order the keys come. */
  method CollectIndices(values: map<string, string>, prefix: string) returns (indices: seq<int>)
    ensures |indices| == |Children(values.Keys, prefix)|
    ensures forall x :: CountBelow(indices, x) == |Below(Children(values.Keys, prefix), x)|
    ensures forall i :: 0 <= i < |indices| ==> indices[i] >= 0
  {
    hide ChildIndex, Below;
    indices := [];
    var keys := values.Keys;
    ghost var read: map<string, nat> := map[];
    ghost var all := Children(values.Keys, prefix);
    NoChildren();
    while keys != {}
      invariant keys <= values.Keys && read == map k | k in all && k !in keys :: all[k]
      invariant |indices| == |read|
      invariant forall x :: CountBelow(indices, x) == |Below(read, x)|
      invariant forall i :: 0 <= i < |indices| ==> indices[i] >= 0
      decreases keys
    {
      var candidate :| candidate in keys;
      keys := keys - {candidate};
      var index := ChildIndex(prefix, candidate);
      if index.Some? {
        OneMoreChild(read, candidate, index.value);
        assert ([index.value] + indices)[1..] == indices;
        indices := [index.value] + indices;
        read := read[candidate := index.value];
      }
    }
    assert read == all;
  }

  lemma NoChildren()
    ensures forall x :: Below(map[], x) == {}
  {
  }

  lemma OneMoreChild(children: map<string, nat>, name: string, index: nat)
    requires name !in children
    ensures |children[name := index]| == |children| + 1
    ensures forall x :: |Below(children[name := index], x)| == |Below(children, x)| + (if index < x then 1 else 0)
  {
    forall x ensures |Below(children[name := index], x)| == |Below(children, x)| + (if index < x then 1 else 0) {
      assert Below(children[name := index], x) == Below(children, x) + (if index < x then {name} else {});
    }
  }

  /** The number at a place of the sorted indices is the index of that rank. */
  lemma IndexAtPlace(children: map<string, nat>, indices: seq<int>, pos: nat)
    requires Bounded(children) && |indices| == |children| && pos < |children|
    requires forall x :: CountBelow(indices, x) == |Below(children, x)|
    requires forall i :: 0 <= i < |indices| ==> indices[i] >= 0
    ensures SortInts(indices)[pos] == IndexAt(children, pos)
  {
    var sorted := SortInts(indices);
    SortIntsSorts(indices);
    hide SortInts, Sorted, Below, CountBelow;
    forall x ensures CountBelow(sorted, x) == |Below(children, x)| {
      SortIntsCounts(indices, x);
    }
    SortedRank(sorted, pos);
    NotNegative(indices, sorted, pos);
    assert IsRank(children, pos, sorted[pos]);
    RankUnique(children, pos, sorted[pos], IndexAt(children, pos));
  }

  lemma ChildrenBounded(names: set<string>, prefix: string)
    ensures Bounded(Children(names, prefix))
  {
  }

  method ResolveValue(values: map<string, string>, key: string) returns (r: Result<Option<string>>)
    ensures r == Resolved(values, key)
  {
    hide ValidateKey, Split, Join, Atoi, Children, Bounded, SortInts, Below, CountBelow, Itoa;
    if key in values {
      return Ok(Some(values[key]));
    }
    if !ValidateKey(key, true) {
      return Err;
    }
    var parts := Split(key, '.');
    var last := parts[|parts| - 1];
    if !IsNegativeIndex(last) {
      return Ok(None);
    }
    var prefix := Join(parts[..|parts| - 1], '.');
    var indices := CollectIndices(values, prefix);
    ChildrenBounded(values.Keys, prefix);
    if |indices| == 0 {
      return Ok(None);
    }
    var sorted := SortInts(indices);
    var offset := Atoi(last).value;
    var indexPos := |sorted| + offset;
    if indexPos < 0 || indexPos >= |sorted| {
      return Err;
    }
    IndexAtPlace(Children(values.Keys, prefix), indices, indexPos);
    var resolved := prefix + "." + Itoa(sorted[indexPos]);
    r := Ok(if resolved in values then Some(values[resolved]) else None);
  }

  lemma NotNegative(s: seq<int>, sorted: seq<int>, pos: nat)
    requires Sorted(sorted) && pos < |sorted| && forall x :: CountBelow(sorted, x) == CountBelow(s, x)
    requires forall i :: 0 <= i < |s| ==> s[i] >= 0
    ensures sorted[pos] >= 0
  {
    NoneBelow(s, 0);
    SortedRank(sorted, pos);
    CountBelowGrows(sorted, sorted[pos] + 1, if sorted[pos] < 0 then 0 else sorted[pos] + 1);
  }

  lemma {:induction false} CountBelowGrows(s: seq<int>, x: int, y: int)
    requires x <= y
    ensures CountBelow(s, x) <= CountBelow(s, y)
  {
    if s == [] {
    } else {
      CountBelowGrows(s[1..], x, y);
    }
  }

  // ---------------------------------------------------------------------------------------------
  // Negative indices
  // ---------------------------------------------------------------------------------------------

  /** The key `prefix.-n`. */
  function FromEnd(prefix: string, n: nat): string {
    prefix + "." + ("-" + Itoa(n))
  }

  function Item(prefix: string, i: nat): string {
    prefix + "." + Itoa(i)
  }

  lemma MinusDigits(n: nat)
    ensures var last := "-" + Itoa(n); ValidKey(last) && '.' !in last && last[1..] == Itoa(n)
  {
    hide Itoa;
    var last := "-" + Itoa(n);
    assert last[1..] == Itoa(n);
    assert forall i :: 1 <= i < |last| ==> last[i] == Itoa(n)[i - 1];
    assert forall i :: 0 <= i < |last| ==> Fits(last, i);
  }

  lemma MinusIndex(n: nat)
    requires n <= MAX_INT + 1
    ensures var last := "-" + Itoa(n);
            ValidKey(last) && '.' !in last && IsNegativeIndex(last) && Atoi(last).value + n == 0
  {
    MinusDigits(n);
    hide Itoa, ValidKey;
  }

  lemma FromEndParts(prefix: string, n: nat)
    requires ValidKey(prefix) && n <= MAX_INT + 1
    ensures ValidateKey(FromEnd(prefix, n), true)
    ensures var parts := Split(FromEnd(prefix, n), '.');
            var last := parts[|parts| - 1];
            && Join(parts[..|parts| - 1], '.') == prefix
            && IsNegativeIndex(last) && Atoi(last).value + n == 0
  {
    var last := "-" + Itoa(n);
    MinusIndex(n);
    hide ValidKey, Itoa, Split, Join, Atoi, IsNegativeIndex, ValidateKey;
    SplitLast(prefix, last, '.');
    JoinSplit(prefix, '.');
    ValidKeyConcat(prefix, last);
    ValidateKeyExactly(FromEnd(prefix, n), true);
    assert (Split(prefix, '.') + [last])[..|Split(prefix, '.')|] == Split(prefix, '.');
  }

  /** A number below the 64-bit range is a legal key segment, but no index. */
  lemma TooLowIndex(prefix: string, n: nat)
    requires ValidKey(prefix) && n > MAX_INT + 1
    ensures ValidateKey(FromEnd(prefix, n), true)
    ensures var parts := Split(FromEnd(prefix, n), '.'); !IsNegativeIndex(parts[|parts| - 1])
  {
    var last := "-" + Itoa(n);
    MinusDigits(n);
    assert Atoi(last).None?;
    hide ValidKey, Itoa, Split, Join, Atoi, ValidateKey;
    SplitLast(prefix, last, '.');
    ValidKeyConcat(prefix, last);
    ValidateKeyExactly(FromEnd(prefix, n), true);
  }

  lemma ItemIndex(prefix: string, i: nat)
    requires i <= MAX_INT
    ensures ChildIndex(prefix, Item(prefix, i)) == Some(i)
  {
    AtoiOfItoa(i);
    assert Item(prefix, i)[|prefix| + 1..] == Itoa(i);
  }

  /** What a negative index denotes, in terms of the children and their order. */
  lemma ResolvedFromEnd(values: map<string, string>, prefix: string, n: nat)
    requires ValidKey(prefix) && 1 <= n && FromEnd(prefix, n) !in values
    ensures var children := Children(values.Keys, prefix);
            && children.Keys <= values.Keys && Bounded(children)
            && Resolved(values, FromEnd(prefix, n)) ==
               if |children| == 0 || n > MAX_INT + 1 then Ok(None)
               else if |children| < n then Err
               else
                 var item := Item(prefix, IndexAt(children, |children| - n));
                 Ok(if item in values then Some(values[item]) else None)
  {
    hide ValidKey, ChildIndex, FromEnd, Split, Join, IsNegativeIndex, Atoi, Itoa, ValidateKey;
    if n > MAX_INT + 1 {
      TooLowIndex(prefix, n);
    } else {
      FromEndParts(prefix, n);
    }
  }

  // -- Which segments are numbers

  /** A sign, any number of zeros, and the number. */
  function Numeral(sign: string, z: nat, n: nat): string {
    sign + (Zeros(z) + Itoa(n))
  }

  predicate Sign(sign: string) {
    sign == "" || sign == "+" || sign == "-"
  }

  lemma NumeralIsDigits(sign: string, z: nat, n: nat)
    requires Sign(sign)
    ensures var s := Numeral(sign, z, n); var digits := if s[0] in "+-" then s[1..] else s;
            && digits != "" && AllDigits(digits) && Digits(digits) == n && s == sign + digits
            && (s[0] == '-' <==> sign == "-") && '.' !in digits
  {
    hide Itoa, Digits, Zeros;
    DigitsExactly(Zeros(z) + Itoa(n), n);
    var digits := Zeros(z) + Itoa(n);
    assert IsDigit(digits[0]);
    assert Numeral(sign, z, n)[|sign|..] == digits;
  }

  lemma AtoiOfNumeral(sign: string, z: nat, n: nat)
    requires Sign(sign)
    ensures Atoi(Numeral(sign, z, n)) ==
              if sign == "-" then (if n <= MAX_INT + 1 then Some(0 - n) else None)
              else if n <= MAX_INT then Some(n) else None
    ensures "-" <= Numeral(sign, z, n) <==> sign == "-"
    ensures |Numeral(sign, z, n)| > |sign| && '.' !in Numeral(sign, z, n)
  {
    NumeralIsDigits(sign, z, n);
    hide Itoa, Digits, Zeros, Numeral, AllDigits;
  }

  /** A segment denotes a list item exactly if it is a number that fits, with zeros or a sign before it or not; a
      minus is only possible before zero. */
  lemma ChildIndexExactly(prefix: string, candidate: string, n: nat)
    requires n <= MAX_INT
    ensures ChildIndex(prefix, candidate) == Some(n) <==>
              exists sign, z: nat :: candidate == prefix + "." + Numeral(sign, z, n) && Sign(sign) &&
                (sign == "-" ==> n == 0)
  {
    hide Itoa, Digits, Zeros, Numeral;
    if ChildIndex(prefix, candidate) == Some(n) {
      var tail := candidate[|prefix| + 1..];
      assert candidate == prefix + "." + tail;
      var sign, z := NumeralOf(tail);
    }
    if sign, z: nat :|
      candidate == prefix + "." + Numeral(sign, z, n) && Sign(sign) && (sign == "-" ==> n == 0) {
      var tail := candidate[|prefix| + 1..];
      assert tail == Numeral(sign, z, n);
      AtoiOfNumeral(sign, z, n);
      hide Atoi;
    }
  }

  /** Whatever is parsed as a number is a numeral. */
  lemma NumeralOf(s: string) returns (sign: string, z: nat)
    requires Atoi(s).Some?
    ensures Sign(sign)
    ensures var n := Atoi(s).value;
            if sign == "-" then n <= 0 && s == Numeral(sign, z, 0 - n) else n >= 0 && s == Numeral(sign, z, n)
  {
    hide Itoa, Digits, Zeros;
    var digits := if s[0] in "+-" then s[1..] else s;
    sign := if s[0] in "+-" then [s[0]] else "";
    DigitsExactly(digits, Digits(digits));
    z :| digits == Zeros(z) + Itoa(Digits(digits));
    assert s == sign + digits;
  }

  /** Negative indices are a minus, any number of zeros, and a number up to 2^63. */
  lemma NegativeIndexForm(s: string)
    ensures IsNegativeIndex(s) <==> exists z: nat, n: nat :: s == Numeral("-", z, n) && n <= 0x8000_0000_0000_0000
  {
    hide Itoa, Digits, Zeros, Numeral;
    if IsNegativeIndex(s) {
      var sign, z := NumeralOf(s);
      if sign != "-" {
        AtoiOfNumeral(sign, z, Atoi(s).value);
      }
      assert s == Numeral("-", z, 0 - Atoi(s).value);
    }
    if z: nat, n: nat :| s == Numeral("-", z, n) && n <= 0x8000_0000_0000_0000 {
      AtoiOfNumeral("-", z, n);
      hide Atoi;
    }
  }

  // -- Stored, malformed and missing keys

  /** A stored key denotes its value, whatever it looks like. */
  lemma StoredIsFound(values: map<string, string>, key: string)
    ensures key in values ==> Resolved(values, key) == Ok(Some(values[key]))
  {
  }

  /** A key that is not stored is an error if it is malformed, and missing if its last segment is no negative index. */
  lemma MissingExactly(values: map<string, string>, key: string)
    requires key !in values
    requires var parts := Split(key, '.');
             forall z: nat, n: nat :: parts[|parts| - 1] == Numeral("-", z, n) ==> n > 0x8000_0000_0000_0000
    ensures Resolved(values, key) == if ValidKey(key) then Ok(None) else Err
  {
    var parts := Split(key, '.');
    NegativeIndexForm(parts[|parts| - 1]);
    ValidateKeyExactly(key, true);
    hide ValidateKey, ValidKey, Split, IsNegativeIndex, Numeral;
  }

  lemma MinusIsValid(z: nat, n: nat)
    ensures var last := Numeral("-", z, n); ValidKey(last) && '.' !in last
  {
    NumeralIsDigits("-", z, n);
    var last := Numeral("-", z, n);
    hide Itoa, Digits, Zeros, Numeral;
    assert forall i :: 1 <= i < |last| ==> last[i] == last[1..][i - 1];
    assert forall i :: 0 <= i < |last| ==> Fits(last, i);
  }

  /** Two last segments that are the same number denote the same item. */
  lemma SameNumberSameItem(values: map<string, string>, prefix: string, x: string, y: string)
    requires ValidKey(prefix) && ValidKey(x) && ValidKey(y) && '.' !in x && '.' !in y
    requires "-" <= x && "-" <= y && |x| != 1 && |y| != 1 && Atoi(x) == Atoi(y)
    requires prefix + "." + x !in values && prefix + "." + y !in values
    ensures Resolved(values, prefix + "." + x) == Resolved(values, prefix + "." + y)
  {
    hide ValidKey, Split, Join, Atoi, ValidateKey, Children;
    SplitLast(prefix, x, '.');
    SplitLast(prefix, y, '.');
    ValidKeyConcat(prefix, x);
    ValidKeyConcat(prefix, y);
    ValidateKeyExactly(prefix + "." + x, true);
    ValidateKeyExactly(prefix + "." + y, true);
    assert (Split(prefix, '.') + [x])[..|Split(prefix, '.')|] == Split(prefix, '.');
    assert (Split(prefix, '.') + [y])[..|Split(prefix, '.')|] == Split(prefix, '.');
  }

  /** Zeros after the minus change nothing. */
  lemma PaddedFromEnd(values: map<string, string>, prefix: string, z: nat, n: nat)
    requires ValidKey(prefix) && prefix + "." + Numeral("-", z, n) !in values && FromEnd(prefix, n) !in values
    ensures Resolved(values, prefix + "." + Numeral("-", z, n)) == Resolved(values, FromEnd(prefix, n))
  {
    assert Numeral("-", 0, n) == "-" + Itoa(n) by {
      hide Itoa;
      assert Zeros(0) + Itoa(n) == Itoa(n);
    }
    assert FromEnd(prefix, n) == prefix + "." + Numeral("-", 0, n);
    hide *;
    MinusIsValid(z, n);
    MinusIsValid(0, n);
    AtoiOfNumeral("-", z, n);
    AtoiOfNumeral("-", 0, n);
    SameNumberSameItem(values, prefix, Numeral("-", z, n), Numeral("-", 0, n));
  }

  /** `-0` is past the end: an error if there are items, and missing if not. */
  lemma MinusZero(values: map<string, string>, prefix: string)
    requires ValidKey(prefix) && FromEnd(prefix, 0) !in values
    ensures Resolved(values, FromEnd(prefix, 0)) == if |Children(values.Keys, prefix)| == 0 then Ok(None) else Err
  {
    hide ValidKey, ChildIndex, FromEnd, Split, Join, IsNegativeIndex, Atoi, Itoa, ValidateKey;
    FromEndParts(prefix, 0);
  }

  /** A negative index without a prefix is missing, because well-formed keys do not start with a dot. */
  lemma NothingBeforeIndex(values: map<string, string>, key: string)
    requires ValidKey(key) && '.' !in key && key !in values && forall k :: k in values ==> ValidKey(k)
    ensures Resolved(values, key) == Ok(None)
  {
    SplitWhole(key, '.');
    ValidateKeyExactly(key, true);
    forall k | k in values ensures ChildIndex("", k).None? {
      assert k[0] != '.' && "" + "." == ".";
    }
    hide ValidKey, ValidateKey, Split, IsNegativeIndex, Atoi, ChildIndex;
    assert Join([], '.') == "" && [key][..0] == [];
    assert Children(values.Keys, "") == map[];
  }

  /** All numbered children of the prefix are written without leading zeros or signs. */
  ghost predicate Canonical(children: map<string, nat>, prefix: string) {
    forall k :: k in children ==> k == Item(prefix, children[k])
  }

  lemma CanonicalRank(children: map<string, nat>, prefix: string, pos: nat, i: nat)
    requires Canonical(children, prefix) && IsRank(children, pos, i)
    ensures Item(prefix, i) in children && children[Item(prefix, i)] == i
    ensures |Larger(children, i)| == |children| - pos - 1
  {
    hide Item;
    var item, lower, upTo := Item(prefix, i), Below(children, i), Below(children, i + 1);
    assert upTo == lower + (if item in upTo then {item} else {});
    assert children.Keys == upTo + Larger(children, i) && upTo !! Larger(children, i);
  }

  lemma {:induction false} CanonicalFew(children: map<string, nat>, prefix: string, x: nat)
    requires Canonical(children, prefix)
    ensures |Below(children, x)| <= x
  {
    hide Item;
    if x == 0 {
      assert Below(children, 0) == {};
    } else {
      CanonicalFew(children, prefix, x - 1);
      var item := Item(prefix, x - 1);
      assert Below(children, x) <= Below(children, x - 1) + {item};
      SubsetSize(Below(children, x), Below(children, x - 1) + {item});
    }
  }

  /** The child has exactly `n - 1` children of larger index, and `prefix.-n` denotes its value. */
  ghost predicate NthFromEnd(values: map<string, string>, prefix: string, n: nat, k: string) {
    var children := Children(values.Keys, prefix);
    && k in children && k in values && |Larger(children, children[k])| + 1 == n
    && Resolved(values, FromEnd(prefix, n)) == Ok(Some(values[k]))
  }

  /** `prefix.-n` denotes what the documentation promises: the child that many places from the end. */
  ghost predicate CountsFromEnd(values: map<string, string>, prefix: string, n: nat) {
    exists k :: NthFromEnd(values, prefix, n, k)
  }

  /** A negative index is an error exactly if there are children, but fewer than it asks for, and it is
      missing if there are none; a number below the 64-bit range is always missing. With canonical indices it
      counts from the end as far as there are children. */
  lemma NegativeIndex(values: map<string, string>, prefix: string, n: nat)
    requires ValidKey(prefix) && 1 <= n && FromEnd(prefix, n) !in values
    ensures var children := Children(values.Keys, prefix);
            var r := Resolved(values, FromEnd(prefix, n));
            && (r == Err <==> 0 < |children| < n <= MAX_INT + 1)
            && (|children| == 0 || n > MAX_INT + 1 ==> r == Ok(None))
            && (Canonical(children, prefix) ==>
                 && (r == Ok(None) <==> |children| == 0 || n > MAX_INT + 1)
                 && (CountsFromEnd(values, prefix, n) <==> n <= |children|))
  {
    hide *;
    var children := Children(values.Keys, prefix);
    ResolvedFromEnd(values, prefix, n);
    if Canonical(children, prefix) && n <= |children| {
      CanonicalCounts(values, prefix, n);
    }
    if CountsFromEnd(values, prefix, n) {
      CountsWithin(values, prefix, n);
    }
  }

  lemma CanonicalCounts(values: map<string, string>, prefix: string, n: nat)
    requires ValidKey(prefix) && FromEnd(prefix, n) !in values
    requires var children := Children(values.Keys, prefix); Canonical(children, prefix) && 1 <= n <= |children|
    ensures n <= MAX_INT + 1 && CountsFromEnd(values, prefix, n) && Resolved(values, FromEnd(prefix, n)) != Ok(None)
  {
    hide *;
    var children := Children(values.Keys, prefix);
    ResolvedFromEnd(values, prefix, n);
    CanonicalFits(children, prefix);
    var i := RankedItem(children, prefix, n);
    IsNth(values, prefix, n, Item(prefix, i));
  }

  lemma CanonicalFits(children: map<string, nat>, prefix: string)
    requires Bounded(children) && Canonical(children, prefix)
    ensures |children| <= MAX_INT + 1
  {
    hide Bounded, Canonical, Below;
    AllBelow(children);
    CanonicalFew(children, prefix, MAX_INT + 1);
  }

  lemma RankedItem(children: map<string, nat>, prefix: string, n: nat) returns (i: nat)
    requires Bounded(children) && Canonical(children, prefix) && 1 <= n <= |children|
    ensures i == IndexAt(children, |children| - n)
    ensures Item(prefix, i) in children && |Larger(children, children[Item(prefix, i)])| + 1 == n
  {
    hide *;
    i := IndexAt(children, |children| - n);
    CanonicalRank(children, prefix, |children| - n, i);
  }

  lemma IsNth(values: map<string, string>, prefix: string, n: nat, k: string)
    requires var children := Children(values.Keys, prefix); k in children && |Larger(children, children[k])| + 1 == n
    requires k in values && Resolved(values, FromEnd(prefix, n)) == Ok(Some(values[k]))
    ensures CountsFromEnd(values, prefix, n)
  {
    hide Resolved, Children, Larger, FromEnd;
    assert NthFromEnd(values, prefix, n, k);
  }

  lemma CountsWithin(values: map<string, string>, prefix: string, n: nat)
    requires CountsFromEnd(values, prefix, n)
    ensures n <= |Children(values.Keys, prefix)|
  {
    hide Resolved, Children, Larger, FromEnd, NthFromEnd;
    var k :| NthFromEnd(values, prefix, n, k);
    NthIsChild(values, prefix, n, k);
    RankBelowSize(Children(values.Keys, prefix), k);
  }

  lemma AllBelow(children: map<string, nat>)
    requires Bounded(children)
    ensures Below(children, MAX_INT + 1) == children.Keys
  {
  }

  lemma RankBelowSize(children: map<string, nat>, k: string)
    requires k in children
    ensures |Larger(children, children[k])| < |children|
  {
    SubsetSize(Larger(children, children[k]) + {k}, children.Keys);
  }

  // When negative indices count from the end

  /** Some child has exactly `place` children of larger index. */
  ghost predicate PlaceTaken(children: map<string, nat>, place: nat) {
    exists k :: k in children && |Larger(children, children[k])| == place
  }

  /** If the first `m` places from the end are taken, there are as many children at different places. */
  lemma {:induction false} PickPlaces(children: map<string, nat>, m: nat) returns (picked: set<string>)
    requires forall place: nat :: place < m ==> PlaceTaken(children, place)
    ensures picked <= children.Keys && |picked| == m
    ensures forall k :: k in picked ==> |Larger(children, children[k])| < m
    ensures forall k, l | k in picked && l in picked ::
              |Larger(children, children[k])| == |Larger(children, children[l])| ==> k == l
  {
    hide Larger;
    if m == 0 {
      picked := {};
    } else {
      var rest := PickPlaces(children, m - 1);
      assert PlaceTaken(children, m - 1);
      var k :| k in children && |Larger(children, children[k])| == m - 1;
      picked := rest + {k};
    }
  }

  lemma SameSize<T>(a: set<T>, b: set<T>)
    requires a <= b && |a| == |b|
    ensures a == b
  {
    if a != b {
      var x :| x in b && x !in a;
      SubsetSize(a + {x}, b);
    }
  }

  /** If all places are taken, no two children share one. */
  lemma PlacesDiffer(children: map<string, nat>, k: string, l: string)
    requires forall place: nat :: place < |children| ==> PlaceTaken(children, place)
    requires k in children && l in children && |Larger(children, children[k])| == |Larger(children, children[l])|
    ensures k == l
  {
    hide Larger, PlaceTaken;
    var picked := PickPlaces(children, |children|);
    SameSize(picked, children.Keys);
  }

  /** If no two children share a place, a child's place is its rank. */
  lemma PlaceIsRank(children: map<string, nat>, k: string)
    requires k in children && forall l :: l in children && children[l] == children[k] ==> l == k
    ensures |Larger(children, children[k])| < |children|
    ensures IsRank(children, |children| - |Larger(children, children[k])| - 1, children[k])
  {
    var x := children[k];
    assert Below(children, x + 1) == Below(children, x) + {k};
    assert children.Keys == Below(children, x + 1) + Larger(children, x) &&
      Below(children, x + 1) !! Larger(children, x);
  }

  lemma ItemIsChild(values: map<string, string>, prefix: string, i: nat)
    requires i <= MAX_INT && Item(prefix, i) in values
    ensures var children := Children(values.Keys, prefix); Item(prefix, i) in children && children[Item(prefix, i)] == i
  {
    ItemIndex(prefix, i);
    hide ChildIndex, Item;
  }

  lemma NthIsChild(values: map<string, string>, prefix: string, n: nat, k: string)
    requires NthFromEnd(values, prefix, n, k)
    ensures var children := Children(values.Keys, prefix); k in children && |Larger(children, children[k])| + 1 == n
    ensures k in values && Resolved(values, FromEnd(prefix, n)) == Ok(Some(values[k]))
  {
    hide Resolved, Children, Larger, FromEnd;
  }

  lemma ChildBounded(values: map<string, string>, prefix: string, k: string)
    requires k in Children(values.Keys, prefix)
    ensures Children(values.Keys, prefix)[k] <= MAX_INT
  {
    hide ChildIndex;
  }

  /** A child that shares its index with no other, and is denoted by the number of its place, is canonical. */
  lemma DenotedIsCanonical(values: map<string, string>, prefix: string, n: nat, k: string)
    requires ValidKey(prefix) && 1 <= n && FromEnd(prefix, n) !in values && NthFromEnd(values, prefix, n, k)
    requires var children := Children(values.Keys, prefix); forall l :: l in children && children[l] == children[k] ==>
               l == k
    ensures k == Item(prefix, Children(values.Keys, prefix)[k])
  {
    hide *;
    var children := Children(values.Keys, prefix);
    NthIsChild(values, prefix, n, k);
    ChildBounded(values, prefix, k);
    PlaceIsRank(children, k);
    ResolvedFromEnd(values, prefix, n);
    RankUnique(children, |children| - n, children[k], IndexAt(children, |children| - n));
    assert Item(prefix, children[k]) in values;
    ItemIsChild(values, prefix, children[k]);
  }

  /** If every negative index up to the number of children counts from the end, all places are taken. */
  lemma CountingTakesPlaces(values: map<string, string>, prefix: string, place: nat)
    requires CountsFromEnd(values, prefix, place + 1)
    ensures PlaceTaken(Children(values.Keys, prefix), place)
  {
    hide Resolved, Children, Larger, FromEnd;
    var l :| NthFromEnd(values, prefix, place + 1, l);
  }

  lemma CountingMeansCanonical(values: map<string, string>, prefix: string, k: string)
    requires ValidKey(prefix) && forall n :: 1 <= n <= |Children(values.Keys, prefix)| ==> FromEnd(prefix, n) !in values
    requires forall n :: 1 <= n <= |Children(values.Keys, prefix)| ==> CountsFromEnd(values, prefix, n)
    requires k in Children(values.Keys, prefix)
    ensures k == Item(prefix, Children(values.Keys, prefix)[k])
  {
    var children := Children(values.Keys, prefix);
    hide Resolved, Children, ChildIndex, ValidKey, FromEnd, Item, Larger, PlaceTaken, NthFromEnd;
    forall place: nat | place < |children| ensures PlaceTaken(children, place) {
      CountingTakesPlaces(values, prefix, place);
    }
    RankBelowSize(children, k);
    var n := |Larger(children, children[k])| + 1;
    assert CountsFromEnd(values, prefix, n);
    var l :| NthFromEnd(values, prefix, n, l);
    NthIsChild(values, prefix, n, l);
    PlacesDiffer(children, l, k);
    forall l | l in children && children[l] == children[k] ensures l == k {
      PlacesDiffer(children, l, k);
    }
    DenotedIsCanonical(values, prefix, n, k);
  }

  /** Negative indices count from the end, for all children, exactly if all indices are canonical. */
  lemma NegativeIndexExactly(values: map<string, string>, prefix: string)
    requires ValidKey(prefix) && forall n :: 1 <= n <= |Children(values.Keys, prefix)| ==> FromEnd(prefix, n) !in values
    ensures (forall n :: 1 <= n <= |Children(values.Keys, prefix)| ==> CountsFromEnd(values, prefix, n))
            <==> Canonical(Children(values.Keys, prefix), prefix)
  {
    var children := Children(values.Keys, prefix);
    hide Resolved, Children, ChildIndex, ValidKey, FromEnd, Item, CountsFromEnd;
    if Canonical(children, prefix) {
      forall n | 1 <= n <= |children| ensures CountsFromEnd(values, prefix, n) {
        NegativeIndex(values, prefix, n);
      }
    }
    if forall n :: 1 <= n <= |children| ==> CountsFromEnd(values, prefix, n) {
      forall k | k in children ensures k == Item(prefix, children[k]) {
        CountingMeansCanonical(values, prefix, k);
      }
    }
  }

  /** Without canonical indices an item can be there and still not be found. */
  lemma NonCanonicalItemIsMissed()
    ensures var values := map["tags.01" := "v"];
            Resolved(values, FromEnd("tags", 1)) == Ok(None) && Children(values.Keys, "tags") == map["tags.01" := 1]
  {
    var values := map["tags.01" := "v"];
    var children := map["tags.01" := 1];
    LeadingZeroIndex();
    assert Children(values.Keys, "tags") == children by {
      hide ChildIndex;
    }
    TagsKeys();
    OneChildRank();
    hide Resolved, Children, ChildIndex, Below, Itoa, ValidKey, FromEnd, Item;
    ResolvedFromEnd(values, "tags", 1);
  }

  lemma TagsKeys()
    ensures ValidKey("tags") && FromEnd("tags", 1) != "tags.01" && Item("tags", 1) == "tags.1"
  {
    assert Itoa(1) == "1" && FromEnd("tags", 1)[5] == '-';
    assert forall i :: 0 <= i < 4 ==> Fits("tags", i);
  }

  lemma LeadingZeroIndex()
    ensures ChildIndex("tags", "tags.01") == Some(1)
  {
    assert "tags.01"[5..] == "01" && "01"[..1] == "0" && "0"[..0] == "";
    assert Digits("0") == 0 && Digits("01") == 1;
  }

  lemma OneChildRank()
    ensures var children: map<string, nat> := map["tags.01" := 1];
            Bounded(children) && |children| == 1 && IndexAt(children, 0) == 1
  {
    var children: map<string, nat> := map["tags.01" := 1];
    OneMoreChild(map[], "tags.01", 1);
    assert Below(map[], 1) == {} && Below(map[], 2) == {};
    assert map[]["tags.01" := 1] == children;
    RankUnique(children, 0, 1, IndexAt(children, 0));
  }

  /** The prefix has exactly the children `prefix.0` up to `prefix.(length - 1)`. */
  ghost predicate IsList(children: map<string, nat>, prefix: string, length: nat) {
    && Canonical(children, prefix)
    && (forall i :: 0 <= i < length ==> Item(prefix, i) in children && children[Item(prefix, i)] == i)
    && forall k :: k in children ==> children[k] < length
  }

  lemma ListFits(children: map<string, nat>, prefix: string, length: nat)
    requires Bounded(children) && IsList(children, prefix, length)
    ensures length <= MAX_INT + 1
  {
    hide Item;
    if length > 0 {
      assert children[Item(prefix, length - 1)] == length - 1;
    }
  }

  lemma {:induction false} ItemsBelow(children: map<string, nat>, prefix: string, length: nat, k: nat)
    requires k <= length && IsList(children, prefix, length)
    ensures |Below(children, k)| == k
  {
    hide Item;
    if k == 0 {
      assert Below(children, 0) == {};
    } else {
      ItemsBelow(children, prefix, length, k - 1);
      assert Below(children, k) == Below(children, k - 1) + {Item(prefix, k - 1)};
    }
  }

  /** In a list of a given length, `-n` is the item at `length - n`. */
  lemma NegativeIndexOfList(values: map<string, string>, prefix: string, length: nat, n: nat)
    requires ValidKey(prefix) && 1 <= n <= length
    requires FromEnd(prefix, n) !in values && IsList(Children(values.Keys, prefix), prefix, length)
    ensures Item(prefix, length - n) in values
    ensures Resolved(values, FromEnd(prefix, n)) == Ok(Some(values[Item(prefix, length - n)]))
  {
    hide Resolved, Item, FromEnd, Children, ValidKey;
    ResolvedFromEnd(values, prefix, n);
    var children := Children(values.Keys, prefix);
    ItemsBelow(children, prefix, length, length);
    assert children.Keys == Below(children, length);
    ItemsBelow(children, prefix, length, length - n);
    ItemsBelow(children, prefix, length, length - n + 1);
    assert |children| == length;
    ListFits(children, prefix, length);
    RankUnique(children, length - n, length - n, IndexAt(children, length - n));
    assert Item(prefix, length - n) in children;
  }
}
