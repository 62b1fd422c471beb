/** Output keys: dotted paths such as `image.tags.0` (`internal/stepoutput/stepoutput.go`). */
module Keys {
  import opened Text

  predicate Legal(c: char) {
    c == '_' || c == '-' || 'a' <= c <= 'z' || 'A' <= c <= 'Z' || '0' <= c <= '9'
  }

  predicate AllLegal(part: string) {
    forall i :: 0 <= i < |part| ==> Legal(part[i])
  }

  predicate IsNegativeIndex(part: string) {
    "-" <= part && |part| != 1 && Atoi(part).Some?
  }

  /** The checks of the key validator; true means that it returns no error. */
  predicate ValidateKey(key: string, allowNegativeFinal: bool) {
    && TrimSpace(key) != ""
    && !("." <= key) && !(key != "" && key[|key| - 1] == '.') && !Contains(key, "..")
    && var parts := Split(key, '.');
       forall i :: 0 <= i < |parts| ==>
         && parts[i] != ""
         && ((allowNegativeFinal && i == |parts| - 1 && IsNegativeIndex(parts[i])) || AllLegal(parts[i]))
  }

  /** The character at `i` is legal, or a dot that another character than a dot follows. */
  predicate Fits(key: string, i: nat)
    requires i < |key|
  {
    Legal(key[i]) || (key[i] == '.' && i + 1 < |key| && key[i + 1] != '.')
  }

  /** What a key has to look like, character by character: legal characters with single dots
      between them. */
  predicate ValidKey(key: string) {
    key != "" && key[0] != '.' && forall i :: 0 <= i < |key| ==> Fits(key, i)
  }

  /** `a` is a dotted ancestor of `b`. */
  predicate Above(a: string, b: string) {
    a + "." <= b
  }

  /** Unsetting `a` removes `b`. */
  predicate Covers(a: string, b: string) {
    a == b || Above(a, b)
  }

  // ---------------------------------------------------------------------------------------------

  const LOWER: string := "abcdefghijklmnopqrstuvwxyz"
  const UPPER: string := "ABCDEFGHIJKLMNOPQRSTUVWXYZ"
  const DIGITS: string := "0123456789"

  /** The text lists the characters from `first` on, one after the other. */
  predicate Lists(s: string, first: char) {
    forall i :: 0 <= i < |s| ==> s[i] as int == first as int + i
  }

  lemma ListsExactly(s: string, first: char, c: char)
    requires Lists(s, first)
    ensures c in s <==> first as int <= c as int < first as int + |s|
  {
    if first as int <= c as int < first as int + |s| {
      assert s[c as int - first as int] == c;
    }
  }

  lemma LowerLists()
    ensures Lists(LOWER, 'a') && |LOWER| == 26
  {
  }

  lemma UpperLists()
    ensures Lists(UPPER, 'A') && |UPPER| == 26
  {
  }

  lemma DigitsList()
    ensures Lists(DIGITS, '0') && |DIGITS| == 10
  {
  }

  /** The characters that a key may be made of, apart from dots. */
  lemma LegalExactly(c: char)
    ensures Legal(c) <==> c in LOWER || c in UPPER || c in DIGITS || c in "_-"
  {
    LowerLists();
    UpperLists();
    DigitsList();
    hide LOWER, UPPER, DIGITS, Lists;
    ListsExactly(LOWER, 'a', c);
    ListsExactly(UPPER, 'A', c);
    ListsExactly(DIGITS, '0', c);
  }

  predicate SegmentsLegal(parts: seq<string>) {
    forall p :: p in parts ==> p != "" && AllLegal(p)
  }

  lemma {:induction false} ValidKeySegments(key: string)
    ensures ValidKey(key) <==> SegmentsLegal(Split(key, '.'))
    decreases |key|
  {
    match IndexOf(key, ".")
    case None =>
      forall i | 0 <= i < |key| ensures key[i] != '.' { OccursChar(key, '.', i); }
      assert Split(key, '.') == [key];
      hide Split;
      assert forall i :: 0 <= i < |key| ==> (Fits(key, i) <==> Legal(key[i]));
      assert key in [key];
    case Some(n) =>
      var head, rest := key[..n], key[n + 1..];
      OccursChar(key, '.', n);
      forall i | 0 <= i < n ensures key[i] != '.' { OccursChar(key, '.', i); }
      assert Split(key, '.') == [head] + Split(rest, '.');
      hide Split, ValidKey, AllLegal;
      ValidKeySegments(rest);
      OneMoreSegment(head, Split(rest, '.'));
      ValidKeyCut(key, n);
  }

  lemma OneMoreSegment(head: string, rest: seq<string>)
    ensures SegmentsLegal([head] + rest) <==> head != "" && AllLegal(head) && SegmentsLegal(rest)
  {
    hide AllLegal;
    assert head in [head] + rest && forall p :: p in rest ==> p in [head] + rest;
  }

  lemma ValidKeyCut(key: string, n: nat)
    requires n < |key| && key[n] == '.' && forall i :: 0 <= i < n ==> key[i] != '.'
    ensures ValidKey(key) <==> key[..n] != "" && AllLegal(key[..n]) && ValidKey(key[n + 1..])
  {
    var head, rest := key[..n], key[n + 1..];
    assert forall i :: 0 <= i < n ==> head[i] == key[i] && (Fits(key, i) <==> Legal(head[i]));
    assert forall i :: 0 <= i < |rest| ==> rest[i] == key[n + 1 + i] && (Fits(rest, i) <==> Fits(key, n + 1 + i));
    if ValidKey(key) {
      assert Fits(key, n);
    }
    if head != "" && AllLegal(head) && ValidKey(rest) {
      forall i | 0 <= i < |key| ensures Fits(key, i) {
        if i > n {
          assert Fits(rest, i - n - 1);
        }
      }
    }
  }

  /** The validator accepts exactly the well-formed keys. In particular its second argument changes
      nothing, because `-` and the digits are legal everywhere: a negative index is accepted in any
      segment, also in the middle of a path. */
  lemma ValidateKeyExactly(key: string, allowNegativeFinal: bool)
    ensures ValidateKey(key, allowNegativeFinal) <==> ValidKey(key)
  {
    var parts := Split(key, '.');
    ValidKeySegments(key);
    forall p | IsNegativeIndex(p) ensures AllLegal(p) {
      assert p[1..] != "" && AllDigits(p[1..]);
      assert forall i :: 1 <= i < |p| ==> p[i] == p[1..][i - 1] && IsDigit(p[i]);
    }
    if ValidKey(key) {
      forall c | c in key ensures !IsSpace(c) {
        var i :| 0 <= i < |key| && key[i] == c;
        assert Fits(key, i);
      }
      TrimSpaceKeeps(key);
      assert Fits(key, |key| - 1);
      forall i | 0 <= i <= |key| - 2 ensures !OccursAt(key, "..", i) {
        assert Fits(key, i) && key[i..i + 2] == [key[i], key[i + 1]];
      }
      assert forall i :: 0 <= i < |parts| ==> parts[i] in parts;
    }
  }

  /** The documentation calls this key invalid, because its negative index is not the last segment. */
  lemma NegativeInTheMiddleIsAccepted()
    ensures ValidateKey("matrix.-1.name", true) && ValidateKey("matrix.-1.name", false)
  {
    var key := "matrix.-1.name";
    assert forall i :: 0 <= i < |key| ==> Fits(key, i);
    ValidateKeyExactly(key, true);
    ValidateKeyExactly(key, false);
  }

  lemma ValidKeyConcat(a: string, b: string)
    requires ValidKey(a) && ValidKey(b)
    ensures ValidKey(a + "." + b)
  {
    var key := a + "." + b;
    forall i | 0 <= i < |key| ensures Fits(key, i) {
      if i < |a| {
        assert Fits(a, i);
      } else if i > |a| {
        assert Fits(b, i - |a| - 1);
      }
    }
  }

  /** Unsetting a key reaches exactly the keys that start with its segments, however deep they are. */
  lemma CoversExactly(a: string, b: string)
    ensures Covers(a, b) <==> Split(a, '.') <= Split(b, '.')
    ensures Above(a, b) <==> Split(a, '.') < Split(b, '.')
  {
    var parts, more := Split(a, '.'), Split(b, '.');
    JoinSplit(a, '.');
    JoinSplit(b, '.');
    if Above(a, b) {
      var rest := b[|a| + 1..];
      assert b == a + ['.'] + rest;
      SplitConcat(a, rest, '.');
    }
    if parts < more {
      var rest := more[|parts|..];
      assert more == parts + rest;
      JoinConcat(parts, rest, '.');
    }
    assert parts == more ==> a == b;
  }

  /** Every dotted ancestor of a well-formed key is well-formed. */
  lemma AboveValid(a: string, b: string)
    requires Above(a, b) && ValidKey(b)
    ensures ValidKey(a)
  {
    assert forall i :: 0 <= i <= |a| ==> (a + ".")[i] == b[i];
    assert b[|a|] == '.';
    forall i | 0 <= i < |a| ensures Fits(a, i) {
      assert Fits(b, i);
    }
  }
}
