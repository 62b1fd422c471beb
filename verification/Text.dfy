/** The parts of Go's `strings` and `strconv` packages that the step outputs rely on. */
module Text {
  import opened Wrappers

  // ---------------------------------------------------------------------------------------------
  // Searching and cutting
  // ---------------------------------------------------------------------------------------------

  ghost predicate OccursAt(s: string, sep: string, i: int) {
    0 <= i <= |s| - |sep| && s[i..i + |sep|] == sep
  }

  lemma OccursInTail(s: string, sep: string)
    requires !(sep <= s) && s != ""
    ensures forall j :: OccursAt(s, sep, j) <==> j > 0 && OccursAt(s[1..], sep, j - 1)
  {
    forall j ensures OccursAt(s, sep, j) <==> j > 0 && OccursAt(s[1..], sep, j - 1) {
      if 0 < j <= |s| - |sep| {
        var here, there := s[j..j + |sep|], s[1..][j - 1..j - 1 + |sep|];
        assert forall i :: 0 <= i < |sep| ==> here[i] == s[j + i] == there[i];
        assert here == there;
      }
    }
  }

  /** The first occurrence of `sep`. */
  function IndexOf(s: string, sep: string): (i: Option<nat>)
    ensures i.Some? ==> OccursAt(s, sep, i.value) && forall j :: 0 <= j < i.value ==> !OccursAt(s, sep, j)
    ensures i.None? ==> forall j :: !OccursAt(s, sep, j)
  {
    if sep <= s then
      assert OccursAt(s, sep, 0);
      Some(0)
    else if s == "" then None
    else
      OccursInTail(s, sep);
      match IndexOf(s[1..], sep)
      case None => None
      case Some(i) => Some(i + 1)
  }

  predicate Contains(s: string, sep: string) {
    IndexOf(s, sep).Some?
  }

  /** `strings.SplitN(s, sep, 2)`: the two parts, or nothing if `sep` does not occur. */
  function Cut(s: string, sep: string): Option<(string, string)> {
    match IndexOf(s, sep)
    case None => None
    case Some(i) => Some((s[..i], s[i + |sep|..]))
  }

  /** An occurrence of `sep` with none before it is where `Cut` cuts. */
  lemma CutAt(s: string, sep: string, i: nat)
    requires OccursAt(s, sep, i) && forall j :: 0 <= j < i ==> !OccursAt(s, sep, j)
    ensures Cut(s, sep) == Some((s[..i], s[i + |sep|..]))
  {
    assert IndexOf(s, sep).Some?;
  }

  /** A part without the separator's first character is cut off at the separator. */
  lemma CutFirst(part: string, sep: string, rest: string)
    requires sep != "" && sep[0] !in part
    ensures Cut(part + sep + rest, sep) == Some((part, rest))
  {
    var s := part + sep + rest;
    forall j | 0 <= j < |part| && j <= |s| - |sep| ensures !OccursAt(s, sep, j) {
      assert s[j..j + |sep|][0] == part[j];
    }
    assert s[|part|..|part| + |sep|] == sep;
    CutAt(s, sep, |part|);
    assert s[..|part|] == part && s[|part| + |sep|..] == rest;
  }

  /** A string can only start with `word` and `stop` if its own first word ends there too. */
  lemma FirstWord(part: string, x: char, rest: string, word: string, stop: char)
    requires stop !in part && x !in word
    ensures word + [stop] <= part + [x] + rest <==> word == part && stop == x
  {
    var s := part + [x] + rest;
    if word + [stop] <= s {
      assert s[|part|] == x && s[|word|] == stop;
      assert forall i :: 0 <= i < |word| ==> s[i] == (word + [stop])[i] == word[i] && s[i] in word;
      assert forall i :: 0 <= i < |part| ==> s[i] == part[i] && s[i] in part;
      assert word == s[..|word|];
    }
  }

  /** `strings.Split` by a single character. */
  function Split(s: string, c: char): (parts: seq<string>)
    ensures |parts| > 0
  {
    match IndexOf(s, [c])
    case None => [s]
    case Some(i) => [s[..i]] + Split(s[i + 1..], c)
  }

  function Join(parts: seq<string>, c: char): string {
    if |parts| == 0 then "" else if |parts| == 1 then parts[0] else parts[0] + [c] + Join(parts[1..], c)
  }

  lemma OccursChar(s: string, c: char, i: nat)
    ensures OccursAt(s, [c], i) <==> i < |s| && s[i] == c
  {
    if i < |s| {
      assert s[i..i + 1] == [s[i]];
    }
  }

  /** A string that starts with a `c`-free part and a `c` splits after that part. */
  lemma SplitFirst(part: string, rest: string, c: char)
    requires c !in part
    ensures Split(part + [c] + rest, c) == [part] + Split(rest, c)
    ensures Cut(part + [c] + rest, [c]) == Some((part, rest))
  {
    var s := part + [c] + rest;
    forall j: nat | j <= |part|
      ensures OccursAt(s, [c], j) <==> j == |part|
    {
      OccursChar(s, c, j);
    }
    CutAt(s, [c], |part|);
    assert s[|part| + 1..] == rest && s[..|part|] == part;
  }

  lemma SplitWhole(s: string, c: char)
    requires c !in s
    ensures Split(s, c) == [s]
  {
    if IndexOf(s, [c]).Some? {
      OccursChar(s, c, IndexOf(s, [c]).value);
    }
  }

  /** Splitting what was joined from `c`-free parts gives the parts back. */
  lemma {:induction false} SplitJoin(parts: seq<string>, c: char)
    requires |parts| > 0 && forall p :: p in parts ==> c !in p
    ensures Split(Join(parts, c), c) == parts
  {
    if |parts| == 1 {
      SplitWhole(parts[0], c);
    } else {
      SplitJoin(parts[1..], c);
      SplitFirst(parts[0], Join(parts[1..], c), c);
      assert parts == [parts[0]] + parts[1..];
    }
  }

  /** Joining what was split gives the string back, and the parts are `c`-free. */
  lemma {:induction false} JoinSplit(s: string, c: char)
    ensures Join(Split(s, c), c) == s
    ensures forall p :: p in Split(s, c) ==> c !in p
    decreases |s|
  {
    match IndexOf(s, [c])
    case None =>
      if c in s {
        var i :| 0 <= i < |s| && s[i] == c;
        OccursChar(s, c, i);
      }
    case Some(i) =>
      JoinSplit(s[i + 1..], c);
      OccursChar(s, c, i);
      if c in s[..i] {
        var j :| 0 <= j < i && s[j] == c;
        OccursChar(s, c, j);
      }
      var rest := Split(s[i + 1..], c);
      assert ([s[..i]] + rest)[1..] == rest;
      assert s == s[..i] + [c] + s[i + 1..];
  }

  lemma {:induction false} JoinConcat(parts: seq<string>, more: seq<string>, c: char)
    requires |parts| > 0 && |more| > 0
    ensures Join(parts + more, c) == Join(parts, c) + [c] + Join(more, c)
  {
    assert (parts + more)[1..] == parts[1..] + more;
    if |parts| == 1 {
      assert parts[1..] + more == more;
    } else {
      JoinConcat(parts[1..], more, c);
    }
  }

  /** What stands before and after a separator is split by itself. */
  lemma SplitConcat(s: string, t: string, c: char)
    ensures Split(s + [c] + t, c) == Split(s, c) + Split(t, c)
  {
    JoinSplit(s, c);
    JoinSplit(t, c);
    JoinConcat(Split(s, c), Split(t, c), c);
    SplitJoin(Split(s, c) + Split(t, c), c);
  }

  /** The last part of a string is cut off by itself. */
  lemma SplitLast(s: string, last: string, c: char)
    requires c !in last
    ensures Split(s + [c] + last, c) == Split(s, c) + [last]
  {
    SplitConcat(s, last, c);
    SplitWhole(last, c);
  }

  // ---------------------------------------------------------------------------------------------
  // White space
  // ---------------------------------------------------------------------------------------------

  predicate IsSpace(c: char) {
    || c in "\t\n\r "
    || c in {'\U{B}', '\U{C}', '\U{85}', '\U{A0}', '\U{1680}', '\U{2028}', '\U{2029}', '\U{202F}', '\U{205F}',
      '\U{3000}'}
    || '\U{2000}' <= c <= '\U{200A}'
  }

  function TrimLeft(s: string): string {
    if s != "" && IsSpace(s[0]) then TrimLeft(s[1..]) else s
  }

  function TrimRight(s: string): string {
    if s != "" && IsSpace(s[|s| - 1]) then TrimRight(s[..|s| - 1]) else s
  }

  function TrimSpace(s: string): string {
    TrimRight(TrimLeft(s))
  }

  predicate Blank(s: string) {
    forall c :: c in s ==> IsSpace(c)
  }

  /** There is no space at either end. */
  predicate Trimmed(s: string) {
    s != "" ==> !IsSpace(s[0]) && !IsSpace(s[|s| - 1])
  }

  lemma {:induction false} TrimLeftBlank(a: string, t: string)
    requires Blank(a) && (t != "" ==> !IsSpace(t[0]))
    ensures TrimLeft(a + t) == t
  {
    hide IsSpace;
    if a == "" {
      assert a + t == t;
    } else {
      assert a[0] in a && (a + t)[1..] == a[1..] + t;
      TrimLeftBlank(a[1..], t);
    }
  }

  lemma {:induction false} TrimRightBlank(t: string, b: string)
    requires Blank(b) && (t != "" ==> !IsSpace(t[|t| - 1]))
    ensures TrimRight(t + b) == t
  {
    hide IsSpace;
    if b == "" {
      assert t + b == t;
    } else {
      assert b[|b| - 1] in b && (t + b)[..|t + b| - 1] == t + b[..|b| - 1];
      TrimRightBlank(t, b[..|b| - 1]);
    }
  }

  /** Exactly the spaces around a text are cut off. */
  lemma TrimSpaceExactly(a: string, t: string, b: string)
    requires Blank(a) && Blank(b) && Trimmed(t)
    ensures TrimSpace(a + t + b) == t
  {
    hide IsSpace;
    if t == "" {
      TrimLeftBlank(a + b, "");
      assert a + t + b == a + b + "";
    } else {
      TrimLeftBlank(a, t + b);
      assert a + t + b == a + (t + b);
      TrimRightBlank(t, b);
    }
  }

  lemma {:induction false} TrimLeftCuts(s: string) returns (a: string)
    ensures Blank(a) && s == a + TrimLeft(s) && (TrimLeft(s) != "" ==> !IsSpace(TrimLeft(s)[0]))
  {
    hide IsSpace;
    a := "";
    if s != "" && IsSpace(s[0]) {
      a := TrimLeftCuts(s[1..]);
      a := [s[0]] + a;
    }
  }

  lemma {:induction false} TrimRightCuts(s: string) returns (b: string)
    ensures Blank(b) && s == TrimRight(s) + b
    ensures TrimRight(s) != "" ==> !IsSpace(TrimRight(s)[|TrimRight(s)| - 1])
  {
    hide IsSpace;
    b := "";
    if s != "" && IsSpace(s[|s| - 1]) {
      b := TrimRightCuts(s[..|s| - 1]);
      b := b + [s[|s| - 1]];
    }
  }

  /** Every text consists of its trimmed form and the spaces around it. */
  lemma TrimSpaceCuts(s: string) returns (a: string, b: string)
    ensures Blank(a) && Blank(b) && Trimmed(TrimSpace(s)) && s == a + TrimSpace(s) + b
  {
    hide IsSpace;
    a := TrimLeftCuts(s);
    b := TrimRightCuts(TrimLeft(s));
    assert TrimSpace(s) != "" ==> TrimSpace(s)[0] == TrimLeft(s)[0];
  }

  /** More spaces around a text change nothing. */
  lemma TrimSpaceAround(a: string, s: string, b: string)
    requires Blank(a) && Blank(b)
    ensures TrimSpace(a + s + b) == TrimSpace(s)
  {
    hide IsSpace, TrimSpace;
    var c, d := TrimSpaceCuts(s);
    assert a + s + b == (a + c) + TrimSpace(s) + (d + b);
    TrimSpaceExactly(a + c, TrimSpace(s), d + b);
  }

  /** A string with no space in it is left as it is. */
  lemma TrimSpaceKeeps(s: string)
    requires forall c :: c in s ==> !IsSpace(c)
    ensures TrimSpace(s) == s
  {
  }

  /** The length of a text in bytes, in UTF-8. */
  function ByteLength(s: string): nat {
    if s == "" then 0
    else
      var c := s[0];
      (if c < '\U{80}' then 1 else if c < '\U{800}' then 2 else if c < '\U{10000}' then 3 else 4) + ByteLength(s[1..])
  }

  /** In a text of ASCII characters, each is one byte. */
  lemma {:induction false} AsciiLength(s: string)
    requires forall c :: c in s ==> c < '\U{80}'
    ensures ByteLength(s) == |s|
  {
    if s == "" {
    } else {
      assert s[0] in s && forall c :: c in s[1..] ==> c in s;
      AsciiLength(s[1..]);
    }
  }

  // ---------------------------------------------------------------------------------------------
  // Decimal numbers
  // ---------------------------------------------------------------------------------------------

  const MAX_INT: int := 0x7FFF_FFFF_FFFF_FFFF

  predicate IsDigit(c: char) {
    '0' <= c <= '9'
  }

  predicate AllDigits(s: string) {
    forall i :: 0 <= i < |s| ==> IsDigit(s[i])
  }

  function Digits(s: string): nat
    requires AllDigits(s)
  {
    if s == "" then 0 else Digits(s[..|s| - 1]) * 10 + (s[|s| - 1] as int - '0' as int)
  }

  /** `strconv.Itoa` of a number that is not negative. */
  function Itoa(n: nat): (s: string)
    ensures s != "" && AllDigits(s) && Digits(s) == n
  {
    var last := ('0' as int + n % 10) as char;
    if n < 10 then
      assert Digits([]) == 0;
      [last]
    else
      var s := Itoa(n / 10) + [last];
      assert s[..|s| - 1] == Itoa(n / 10);
      s
  }

  /** `strconv.Atoi` on a 64-bit platform: an optional sign, one or more digits, and a value that fits. */
  function Atoi(s: string): (n: Option<int>)
    ensures n.Some? ==> -MAX_INT - 1 <= n.value <= MAX_INT
  {
    var digits := if s != "" && s[0] in "+-" then s[1..] else s;
    if digits == "" || !AllDigits(digits) then None
    else
      var n: int := if s[0] == '-' then 0 - Digits(digits) else Digits(digits);
      if -MAX_INT - 1 <= n <= MAX_INT then Some(n) else None
  }

  lemma AtoiOfItoa(n: nat)
    requires n <= MAX_INT
    ensures Atoi(Itoa(n)) == Some(n)
  {
    assert IsDigit(Itoa(n)[0]);
  }

  lemma ItoaInjective(m: nat, n: nat)
    requires Itoa(m) == Itoa(n)
    ensures m == n
  {
    assert Digits(Itoa(m)) == Digits(Itoa(n));
  }

  function Zeros(n: nat): string {
    seq(n, _ => '0')
  }

  lemma {:induction false} DigitsAfterZeros(z: nat, s: string)
    requires AllDigits(s)
    ensures AllDigits(Zeros(z) + s) && Digits(Zeros(z) + s) == Digits(s)
    decreases z + |s|
  {
    var t := Zeros(z) + s;
    if s != "" {
      DigitsAfterZeros(z, s[..|s| - 1]);
      assert t[..|t| - 1] == Zeros(z) + s[..|s| - 1];
    } else if z > 0 {
      DigitsAfterZeros(z - 1, "");
      assert t[..|t| - 1] == Zeros(z - 1) + "";
    }
  }

  lemma {:induction false} DigitsArePadded(s: string) returns (z: nat)
    requires s != "" && AllDigits(s)
    ensures s == Zeros(z) + Itoa(Digits(s))
  {
    var front, n := s[..|s| - 1], Digits(s);
    assert Digits(front) == n / 10 && s == front + [('0' as int + n % 10) as char];
    if front == "" {
      assert Digits("") == 0;
      z := 0;
    } else {
      z := DigitsArePadded(front);
      if n < 10 {
        assert Itoa(0) == "0";
        z := z + 1;
      }
    }
  }

  /** A decimal numeral of a number is its printed form, with any number of zeros before it. */
  lemma DigitsExactly(s: string, n: nat)
    ensures s != "" && AllDigits(s) && Digits(s) == n <==> exists z: nat :: s == Zeros(z) + Itoa(n)
  {
    hide Itoa, Digits;
    if s != "" && AllDigits(s) && Digits(s) == n {
      var z := DigitsArePadded(s);
    }
    if z: nat :| s == Zeros(z) + Itoa(n) {
      DigitsAfterZeros(z, Itoa(n));
    }
  }

  function Pow10(k: nat): nat {
    if k == 0 then 1 else 10 * Pow10(k - 1)
  }

  /** Numbers are printed in base ten, without leading zeros. */
  lemma {:induction false} ItoaLength(n: nat, k: nat)
    requires k > 0
    ensures |Itoa(n)| <= k <==> n < Pow10(k)
    ensures Itoa(n)[0] == '0' ==> n == 0
  {
    if n < 10 {
      Pow10Grows(1, k);
      assert Pow10(1) == 10 * Pow10(0);
    } else if k == 1 {
      assert Pow10(1) == 10 * Pow10(0);
      ItoaLength(n / 10, 1);
    } else {
      ItoaLength(n / 10, k - 1);
    }
  }

  lemma {:induction false} Pow10Grows(j: nat, k: nat)
    requires j <= k
    ensures 1 <= Pow10(j) <= Pow10(k)
  {
    if k == 0 {
    } else if j == k {
      Pow10Grows(k - 1, k - 1);
    } else {
      Pow10Grows(j, k - 1);
    }
  }
}
