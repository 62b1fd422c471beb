/** References to the outputs of a step, as `from_output` writes them (`internal/stepoutput/stepoutput.go`). */
module References {
  import opened Wrappers
  import opened Text
  import opened Keys

  datatype OutputRef = OutputRef(step: string, key: string)

  /** A reference whose parts are there and whose key is well-formed. */
  function Checked(step: string, key: string): Result<OutputRef> {
    if step == "" || key == "" || !ValidateKey(key, true) then Err else Ok(OutputRef(step, key))
  }

  function CheckedCut(s: string, sep: string): Result<OutputRef> {
    match Cut(s, sep)
    case None => Err
    case Some((step, key)) => Checked(step, key)
  }

  /** What the comma-separated form says after the fields in `ref` have been read. */
  function Fields(parts: seq<string>, ref: OutputRef): Result<OutputRef> {
    if parts == [] then Checked(ref.step, ref.key)
    else
      var part := TrimSpace(parts[0]);
      if "step=" <= part then Fields(parts[1..], ref.(step := TrimSpace(part[5..])))
      else if "key=" <= part then Fields(parts[1..], ref.(key := TrimSpace(part[4..])))
      else Err
  }

  /** The reference that a text denotes. */
  function Parse(text: string): Result<OutputRef> {
    var input := TrimSpace(text);
    if input == "" then Err
    else if "steps." <= input && Contains(input, ".outputs.") then CheckedCut(input[6..], ".outputs.")
    else if Contains(input, "step=") || Contains(input, "key=") then Fields(Split(input, ','), OutputRef("", ""))
    else if Contains(input, "/") then CheckedCut(input, "/")
    else CheckedCut(input, ".")
  }

  method ParseRef(text: string) returns (r: Result<OutputRef>)
    ensures r == Parse(text)
  {
    var input := TrimSpace(text);
    if input == "" {
      return Err;
    }
    if "steps." <= input && Contains(input, ".outputs.") {
      return CheckedCut(input[6..], ".outputs.");
    }
    if Contains(input, "step=") || Contains(input, "key=") {
      var parts := Split(input, ',');
      var ref := OutputRef("", "");
      for i := 0 to |parts|
        invariant Fields(parts, OutputRef("", "")) == Fields(parts[i..], ref)
      {
        var part := TrimSpace(parts[i]);
        assert parts[i..][1..] == parts[i + 1..];
        if "step=" <= part {
          ref := ref.(step := TrimSpace(part[5..]));
        } else if "key=" <= part {
          ref := ref.(key := TrimSpace(part[4..]));
        } else {
          return Err;
        }
      }
      return Checked(ref.step, ref.key);
    }
    r := if Contains(input, "/") then CheckedCut(input, "/") else CheckedCut(input, ".");
  }

  /** Whatever is parsed names a step and a well-formed key. */
  lemma {:induction false} FieldsWellFormed(parts: seq<string>, ref: OutputRef)
    requires Fields(parts, ref).Ok?
    ensures Fields(parts, ref).value.step != "" && ValidKey(Fields(parts, ref).value.key)
  {
    if parts == [] {
      ValidateKeyExactly(ref.key, true);
    } else {
      var part := TrimSpace(parts[0]);
      FieldsWellFormed(parts[1..],
        if "step=" <= part then ref.(step := TrimSpace(part[5..])) else ref.(key := TrimSpace(part[4..])));
    }
  }

  /** The value of the last part that is a field with this word. */
  function LastField(parts: seq<string>, word: string, before: string): string {
    if parts == [] then before
    else
      var last := TrimSpace(parts[|parts| - 1]);
      if word <= last then TrimSpace(last[|word|..]) else LastField(parts[..|parts| - 1], word, before)
  }

  lemma {:induction false} LastFieldCons(part: string, rest: seq<string>, word: string, before: string)
    ensures LastField([part] + rest, word, before) == LastField(rest, word, LastField([part], word, before))
  {
    hide TrimSpace;
    if rest == [] {
      assert [part] + rest == [part];
    } else {
      assert ([part] + rest)[..|rest|] == [part] + rest[..|rest| - 1];
      LastFieldCons(part, rest[..|rest| - 1], word, before);
    }
  }

  /** The part is one of the two fields. */
  predicate IsField(part: string) {
    "step=" <= TrimSpace(part) || "key=" <= TrimSpace(part)
  }

  lemma OneField(part: string, word: string, before: string)
    ensures LastField([part], word, before) ==
              if word <= TrimSpace(part) then TrimSpace(TrimSpace(part)[|word|..]) else before
    ensures !("step=" <= TrimSpace(part) && "key=" <= TrimSpace(part))
  {
    hide TrimSpace;
    assert [part][..0] == [];
    assert "step="[0] != "key="[0];
  }

  /** The form with fields is an error if one of its parts is no field; otherwise of each field the last one counts. */
  lemma {:induction false} FieldsExactly(parts: seq<string>, ref: OutputRef)
    ensures (forall part :: part in parts ==> IsField(part)) ==>
              Fields(parts, ref) ==
                Checked(LastField(parts, "step=", ref.step), LastField(parts, "key=", ref.key))
    ensures !(forall part :: part in parts ==> IsField(part)) ==> Fields(parts, ref) == Err
  {
    hide TrimSpace, Checked;
    if parts == [] {
    } else {
      var first, rest, part := parts[0], parts[1..], TrimSpace(parts[0]);
      assert parts == [first] + rest;
      OneField(first, "step=", ref.step);
      OneField(first, "key=", ref.key);
      LastFieldCons(first, rest, "step=", ref.step);
      LastFieldCons(first, rest, "key=", ref.key);
      hide LastField;
      assert first in parts && forall p :: p in parts <==> p == first || p in rest;
      if "step=" <= part {
        FieldsExactly(rest, ref.(step := TrimSpace(part[5..])));
      } else if "key=" <= part {
        FieldsExactly(rest, ref.(key := TrimSpace(part[4..])));
      }
    }
  }

  lemma ParsedIsWellFormed(text: string)
    requires Parse(text).Ok?
    ensures Parse(text).value.step != "" && ValidKey(Parse(text).value.key)
  {
    var input := TrimSpace(text);
    ValidateKeyExactly(Parse(text).value.key, true);
    if !("steps." <= input && Contains(input, ".outputs.")) && (Contains(input, "step=") || Contains(input, "key=")) {
      FieldsWellFormed(Split(input, ','), OutputRef("", ""));
    }
  }

  // ---------------------------------------------------------------------------------------------
  // The four written forms mean the same
  // ---------------------------------------------------------------------------------------------

  predicate StepName(name: string) {
    name != "" && AllLegal(name)
  }

  lemma NotContained(s: string, sep: string, c: char)
    requires c in sep && c !in s
    ensures !Contains(s, sep)
  {
    var j :| 0 <= j < |sep| && sep[j] == c;
    forall i | 0 <= i <= |s| - |sep| ensures !OccursAt(s, sep, i) {
      assert s[i..i + |sep|][j] == s[i + j];
    }
  }

  lemma ContainedAt(a: string, sep: string, b: string)
    ensures Contains(a + sep + b, sep)
  {
    var s := a + sep + b;
    assert s[|a|..|a| + |sep|] == sep;
    assert OccursAt(s, sep, |a|);
  }

  /** The characters of a step name or of a key. */
  lemma LegalText(step: string, key: string, c: char)
    requires StepName(step) && ValidKey(key)
    ensures c in step ==> Legal(c) && c != '.'
    ensures c in key ==> Legal(c) || c == '.'
  {
    if c in key {
      var i :| 0 <= i < |key| && key[i] == c;
      assert Fits(key, i);
    }
  }

  lemma SlashFormText(step: string, key: string)
    requires StepName(step) && ValidKey(key)
    ensures var s := step + "/" + key;
            TrimSpace(s) == s && !Contains(s, "step=") && !Contains(s, "key=") && Contains(s, "/")
  {
    var s := step + "/" + key;
    forall c | c in s ensures !IsSpace(c) && c != '=' { LegalText(step, key, c); }
    TrimSpaceKeeps(s);
    NotContained(s, "step=", '=');
    NotContained(s, "key=", '=');
    ContainedAt(step, "/", key);
  }

  lemma SlashForm(step: string, key: string)
    requires StepName(step) && ValidKey(key)
    ensures Parse(step + "/" + key) == Ok(OutputRef(step, key))
  {
    SlashFormText(step, key);
    LegalText(step, key, '.');
    FirstWord(step, '/', key, "steps", '.');
    CheckedCutOf(step, "/", key);
  }

  lemma StepsFormText(step: string, key: string)
    requires StepName(step) && ValidKey(key)
    ensures var s := "steps." + (step + ".outputs." + key); TrimSpace(s) == s && Contains(s, ".outputs.")
  {
    var s := "steps." + (step + ".outputs." + key);
    forall c | c in s ensures !IsSpace(c) { LegalText(step, key, c); }
    TrimSpaceKeeps(s);
    ContainedAt("steps." + step, ".outputs.", key);
    assert s == ("steps." + step) + ".outputs." + key;
  }

  lemma CheckedCutOf(step: string, sep: string, key: string)
    requires StepName(step) && ValidKey(key) && sep != "" && sep[0] in "./"
    ensures CheckedCut(step + sep + key, sep) == Ok(OutputRef(step, key))
  {
    LegalText(step, key, sep[0]);
    CutFirst(step, sep, key);
    ValidateKeyExactly(key, true);
  }

  lemma StepsParsed(rest: string)
    requires TrimSpace("steps." + rest) == "steps." + rest && Contains("steps." + rest, ".outputs.")
    ensures Parse("steps." + rest) == CheckedCut(rest, ".outputs.")
  {
    assert ("steps." + rest)[6..] == rest;
  }

  lemma StepsForm(step: string, key: string)
    requires StepName(step) && ValidKey(key)
    ensures Parse("steps." + (step + ".outputs." + key)) == Ok(OutputRef(step, key))
  {
    StepsFormText(step, key);
    CheckedCutOf(step, ".outputs.", key);
    StepsParsed(step + ".outputs." + key);
  }

  /** Spaces around a reference do not matter. */
  lemma ParseTrims(a: string, text: string, b: string)
    requires Blank(a) && Blank(b)
    ensures Parse(a + text + b) == Parse(text)
  {
    hide TrimSpace, Contains, Split, Fields, CheckedCut;
    TrimSpaceAround(a, text, b);
  }

  /** One field, with spaces around it and around its value. */
  function Field(a: string, word: string, b: string, value: string, c: string): string {
    a + (word + (b + value + c))
  }

  predicate FieldWord(word: string) {
    word == "step=" || word == "key="
  }

  /** The value of a field: something without spaces and commas. */
  predicate FieldValue(value: string) {
    value != "" && forall x :: x in value ==> !IsSpace(x) && x != ','
  }

  lemma FieldTrims(a: string, word: string, b: string, value: string, c: string)
    requires Blank(a) && Blank(b) && Blank(c) && FieldWord(word) && FieldValue(value)
    ensures var part := TrimSpace(Field(a, word, b, value, c)); word <= part && TrimSpace(part[|word|..]) == value
    ensures ',' !in Field(a, word, b, value, c)
  {
    NoComma(a, word, b, value, c);
    var inner := word + (b + value);
    assert Field(a, word, b, value, c) == a + inner + c;
    hide Field, IsSpace, TrimSpace, Blank;
    assert value[0] in value && value[|value| - 1] in value && inner[|inner| - 1] == value[|value| - 1];
    assert Trimmed(inner) by { WordIsNoSpace(word); }
    TrimSpaceExactly(a, inner, c);
    assert inner[|word|..] == b + value + "";
    NothingIsBlank();
    TrimSpaceExactly(b, value, "");
  }

  lemma WordIsNoSpace(word: string)
    requires FieldWord(word)
    ensures word != "" && !IsSpace(word[0])
  {
  }

  lemma NoComma(a: string, word: string, b: string, value: string, c: string)
    requires Blank(a) && Blank(b) && Blank(c) && FieldWord(word) && FieldValue(value)
    ensures ',' !in Field(a, word, b, value, c)
  {
    assert !IsSpace(',') && ',' !in word;
    hide IsSpace;
  }

  /** Two fields without spaces around them are taken for the comma-separated form. */
  lemma FieldsParsed(first: string, second: string)
    requires ',' !in first && ',' !in second
    requires "step=" <= first || "key=" <= first
    requires var text := first + [','] + second; Trimmed(text) && Contains(text, "step=")
    ensures Parse(first + [','] + second) == Fields([first, second], OutputRef("", ""))
  {
    var text := first + [','] + second;
    assert text[0] == 'k' || text[4] == '=';
    assert !("steps." <= text) && text != "";
    hide *;
    NothingIsBlank();
    TrimSpaceExactly("", text, "");
    assert "" + text + "" == text;
    SplitFirst(first, second, ',');
    SplitWhole(second, ',');
    assert [first] + [second] == [first, second];
    WithFieldsParsed(text);
  }

  lemma NothingIsBlank()
    ensures Blank("")
  {
  }

  lemma WithFieldsParsed(s: string)
    requires TrimSpace(s) == s && s != "" && !("steps." <= s) && Contains(s, "step=")
    ensures Parse(s) == Fields(Split(s, ','), OutputRef("", ""))
  {
    hide TrimSpace, Contains, Split, Fields;
  }

  /** Two fields in either order, with their values. */
  lemma FieldsRead(first: string, second: string, step: string, key: string, swapped: bool)
    requires step != "" && ValidKey(key)
    requires var part := TrimSpace(if swapped then second else first);
             "step=" <= part && TrimSpace(part[5..]) == step
    requires var part := TrimSpace(if swapped then first else second); "key=" <= part && TrimSpace(part[4..]) == key
    ensures Fields([first, second], OutputRef("", "")) == Ok(OutputRef(step, key))
  {
    hide TrimSpace, ValidateKey;
    var word, part := "key=", TrimSpace(if swapped then first else second);
    assert part[0] == word[0];
    assert [first, second][1..] == [second] && [second][1..] == [];
    ValidateKeyExactly(key, true);
    assert Fields([], OutputRef(step, key)) == Ok(OutputRef(step, key));
    assert Fields([second], if swapped then OutputRef("", key) else OutputRef(step, "")) ==
      Fields([], OutputRef(step, key));
  }

  /** The texts of the two fields, without the spaces at the ends. */
  lemma FieldsText(w: string, b: string, v: string, c: string, d: string, w': string, e: string, v': string)
    requires FieldWord(w) && FieldWord(w') && w != w' && FieldValue(v) && FieldValue(v')
    ensures var text := Field("", w, b, v, c) + [','] + Field(d, w', e, v', "");
            Trimmed(text) && Contains(text, "step=")
  {
    var first, second := Field("", w, b, v, c), Field(d, w', e, v', "");
    hide *;
    FieldsTrimmed(w, b, v, c, d, w', e, v');
    if w == "step=" {
      UnfoldField("", w, b, v, c);
      ContainedAt("", "step=", b + v + c + [','] + second);
      assert first + [','] + second == "" + "step=" + (b + v + c + [','] + second);
    } else {
      OtherWord(w, w');
      UnfoldField(d, w', e, v', "");
      ContainedAt(first + [','] + d, "step=", e + v' + "");
      assert first + [','] + second == first + [','] + d + "step=" + (e + v' + "");
    }
  }

  lemma FieldsTrimmed(w: string, b: string, v: string, c: string, d: string, w': string, e: string, v': string)
    requires FieldWord(w) && FieldWord(w') && FieldValue(v')
    ensures Trimmed(Field("", w, b, v, c) + [','] + Field(d, w', e, v', ""))
  {
    var first, second := Field("", w, b, v, c), Field(d, w', e, v', "");
    assert first[0] == w[0] && second[|second| - 1] == v'[|v'| - 1] && v'[|v'| - 1] in v';
    hide Field;
    var text := first + [','] + second;
    assert text[0] == first[0] && text[|text| - 1] == second[|second| - 1];
  }

  lemma OtherWord(w: string, w': string)
    requires FieldWord(w) && FieldWord(w') && w != w' && w != "step="
    ensures w' == "step="
  {
  }

  lemma UnfoldField(a: string, word: string, b: string, value: string, c: string)
    ensures Field(a, word, b, value, c) == a + (word + (b + value + c))
  {
  }

  lemma FieldStarts(a: string, word: string, b: string, value: string, c: string)
    ensures Field(a, word, b, value, c) == a + Field("", word, b, value, c)
    ensures word <= Field("", word, b, value, c)
  {
    assert Field("", word, b, value, c) == word + (b + value + c);
  }

  lemma FieldEnds(a: string, word: string, b: string, value: string, c: string)
    ensures Field(a, word, b, value, c) == Field(a, word, b, value, "") + c
  {
    assert b + value + "" == b + value;
    assert word + (b + value + c) == word + (b + value) + c;
  }

  /** The form with fields, with any spaces around the fields and their values. */
  lemma SpacedFields(w: string, w': string, v: string, v': string, a: string, b: string, c: string, d: string,
          e: string, f: string)
    requires FieldWord(w) && FieldWord(w') && w != w' && FieldValue(v) && FieldValue(v')
    requires Blank(a) && Blank(b) && Blank(c) && Blank(d) && Blank(e) && Blank(f)
    ensures Parse(Field(a, w, b, v, c) + [','] + Field(d, w', e, v', f)) ==
              Fields([Field("", w, b, v, c), Field(d, w', e, v', "")], OutputRef("", ""))
  {
    var first, second := Field("", w, b, v, c), Field(d, w', e, v', "");
    assert Blank("") && (w == "step=" || w == "key=");
    hide *;
    assert Field(a, w, b, v, c) + [','] + Field(d, w', e, v', f) == a + (first + [','] + second) + f by {
      FieldStarts(a, w, b, v, c);
      FieldEnds(d, w', e, v', f);
    }
    assert "step=" <= first || "key=" <= first by {
      FieldStarts("", w, b, v, c);
    }
    FieldTrims("", w, b, v, c);
    FieldTrims(d, w', e, v', "");
    FieldsText(w, b, v, c, d, w', e, v');
    FieldsParsed(first, second);
    ParseTrims(a, first + [','] + second, f);
  }

  lemma KeyIsValue(key: string)
    requires ValidKey(key)
    ensures FieldValue(key)
  {
    forall x | x in key ensures !IsSpace(x) && x != ',' {
      var i :| 0 <= i < |key| && key[i] == x;
      assert Fits(key, i);
    }
  }

  /** The form with fields, in either order. The step may be anything without spaces and commas. */
  lemma FieldsForm(step: string, key: string, swapped: bool, a: string, b: string, c: string, d: string, e: string,
          f: string)
    requires FieldValue(step) && ValidKey(key)
    requires Blank(a) && Blank(b) && Blank(c) && Blank(d) && Blank(e) && Blank(f)
    ensures Parse(if swapped
                    then Field(a, "key=", b, key, c) + [','] + Field(d, "step=", e, step, f)
                    else Field(a, "step=", b, step, c) + [','] + Field(d, "key=", e, key, f))
            == Ok(OutputRef(step, key))
  {
    assert FieldWord("step=") && FieldWord("key=") && Blank("") && step != "";
    hide *;
    KeyIsValue(key);
    var v, v', w, w' := step, key, "step=", "key=";
    if swapped {
      v, v', w, w' := key, step, "key=", "step=";
      assert w[0] != w'[0];
    }
    SpacedFields(w, w', v, v', a, b, c, d, e, f);
    FieldTrims("", w, b, v, c);
    FieldTrims(d, w', e, v', "");
    FieldsRead(Field("", w, b, v, c), Field(d, w', e, v', ""), step, key, swapped);
  }

  lemma DottedFormText(step: string, key: string)
    requires StepName(step) && ValidKey(key)
    ensures var s := step + "." + key;
            TrimSpace(s) == s && !Contains(s, "step=") && !Contains(s, "key=") && !Contains(s, "/")
  {
    var s := step + "." + key;
    forall c | c in s ensures !IsSpace(c) && c != '=' && c != '/' { LegalText(step, key, c); }
    TrimSpaceKeeps(s);
    NotContained(s, "step=", '=');
    NotContained(s, "key=", '=');
    NotContained(s, "/", '/');
  }

  /** The documented form `step.key`. It denotes the step and the key exactly when it is not taken
      for the form `steps.<step>.outputs.<key>`, which only a step called `steps` can be. */
  lemma DottedForm(step: string, key: string)
    requires StepName(step) && ValidKey(key)
    ensures Parse(step + "." + key) == Ok(OutputRef(step, key)) <==>
              !(step == "steps" && Contains("." + key, ".outputs."))
  {
    var s := step + "." + key;
    var stepsForm := "steps." <= s && Contains(s, ".outputs.");
    hide *;
    DottedFormText(step, key);
    PlainParsed(s);
    if stepsForm {
      LegalText(step, key, '.');
      FirstWord(step, '.', key, "steps", '.');
      assert s[6..] == key;
      OutputsInside(step, key);
      CutIsShorter(key, ".outputs.", step);
    } else {
      CheckedCutOf(step, ".", key);
      OutputsInside(step, key);
    }
  }

  /** A text that is not taken for one of the forms with fields or a slash. */
  lemma PlainParsed(s: string)
    requires TrimSpace(s) == s && s != "" && !Contains(s, "step=") && !Contains(s, "key=") && !Contains(s, "/")
    ensures Parse(s) ==
              if "steps." <= s && Contains(s, ".outputs.") then CheckedCut(s[6..], ".outputs.") else CheckedCut(s, ".")
  {
    hide TrimSpace, Contains, CheckedCut;
  }

  lemma CutIsShorter(s: string, sep: string, step: string)
    requires sep != ""
    ensures CheckedCut(s, sep) != Ok(OutputRef(step, s))
  {
    hide ValidateKey;
  }

  lemma OccursAfter(step: string, rest: string, sep: string, i: nat)
    requires sep != "" && sep[0] !in step
    ensures OccursAt(step + rest, sep, i) <==> i >= |step| && OccursAt(rest, sep, i - |step|)
  {
    var s := step + rest;
    if i <= |s| - |sep| {
      if i < |step| {
        assert s[i..i + |sep|][0] == step[i];
      } else {
        assert s[i..i + |sep|] == rest[i - |step|..i - |step| + |sep|];
      }
    }
  }

  /** A step name does not hide the separator: it is found in the reference exactly when it is found
      after the name. */
  lemma OutputsInside(step: string, key: string)
    requires StepName(step) && ValidKey(key)
    ensures Contains(step + "." + key, ".outputs.") <==> Contains("." + key, ".outputs.")
  {
    var rest := "." + key;
    assert step + "." + key == step + rest;
    LegalText(step, key, '.');
    forall i: nat
      ensures OccursAt(step + rest, ".outputs.", i) <==> i >= |step| && OccursAt(rest, ".outputs.", i - |step|)
    {
      OccursAfter(step, rest, ".outputs.", i);
    }
    if Contains(rest, ".outputs.") {
      assert OccursAt(step + rest, ".outputs.", |step| + IndexOf(rest, ".outputs.").value);
    }
  }
}
