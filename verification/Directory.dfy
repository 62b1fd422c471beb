/** The file backend: one directory for each step, one file for each key
    (`internal/stepoutput/stepoutput.go`). */
module Directory {
  import opened Wrappers
  import opened Text
  import opened Keys
  import opened Patches

  // ---------------------------------------------------------------------------------------------
  // `sort.Strings`
  // ---------------------------------------------------------------------------------------------

  /** The lexicographic order. */
  predicate LexLeq(a: string, b: string) {
    a == "" || (b != "" && (a[0] < b[0] || (a[0] == b[0] && LexLeq(a[1..], b[1..]))))
  }

  lemma {:induction false} LexTransitive(a: string, b: string, c: string)
    requires LexLeq(a, b) && LexLeq(b, c)
    ensures LexLeq(a, c)
  {
    if a == "" {
    } else if a[0] == b[0] == c[0] {
      LexTransitive(a[1..], b[1..], c[1..]);
    }
  }

  lemma {:induction false} LexTotal(a: string, b: string)
    ensures LexLeq(a, b) || LexLeq(b, a)
  {
    if a == "" || b == "" {
    } else if a[0] == b[0] {
      LexTotal(a[1..], b[1..]);
    }
  }

  lemma {:induction false} LexAntisymmetric(a: string, b: string)
    requires LexLeq(a, b) && LexLeq(b, a)
    ensures a == b
  {
    if a == "" {
    } else {
      LexAntisymmetric(a[1..], b[1..]);
      assert a == [a[0]] + a[1..] && b == [b[0]] + b[1..];
    }
  }

  lemma {:induction false} PrefixIsLess(a: string, b: string)
    requires a <= b
    ensures LexLeq(a, b)
  {
    if a == "" {
    } else {
      assert b[..|a|] == a && a[1..] == b[1..][..|a| - 1];
      PrefixIsLess(a[1..], b[1..]);
    }
  }

  /** The texts agree before `i`, and there the first one has the smaller character. */
  ghost predicate LessAt(a: string, b: string, i: nat) {
    i < |a| && i < |b| && a[i] < b[i] && a[..i] == b[..i]
  }

  lemma LessAtTail(a: string, b: string, i: nat)
    requires a != "" && b != "" && a[0] == b[0]
    ensures LessAt(a, b, i + 1) <==> LessAt(a[1..], b[1..], i)
    ensures !LessAt(a, b, 0) && (a <= b <==> a[1..] <= b[1..])
  {
    assert a == [a[0]] + a[1..] && b == [b[0]] + b[1..];
    if i < |a| - 1 && i < |b| - 1 {
      assert a[..i + 1] == [a[0]] + a[1..][..i] && b[..i + 1] == [b[0]] + b[1..][..i];
    }
  }

  /** One text comes before another if it is the beginning of it, or has the smaller character where they first
      differ. */
  lemma {:induction false} LexExactly(a: string, b: string)
    ensures LexLeq(a, b) <==> a <= b || exists i :: LessAt(a, b, i)
  {
    if a == "" {
    } else if b != "" && a[0] == b[0] {
      LexExactly(a[1..], b[1..]);
      forall i: nat ensures LessAt(a, b, i + 1) <==> LessAt(a[1..], b[1..], i) {
        LessAtTail(a, b, i);
      }
      LessAtTail(a, b, 0);
      hide LessAt;
      if i: nat :| LessAt(a, b, i) {
        assert LessAt(a[1..], b[1..], i - 1);
      }
      if i: nat :| LessAt(a[1..], b[1..], i) {
        assert LessAt(a, b, i + 1);
      }
    } else if b != "" && a[0] < b[0] {
      assert LessAt(a, b, 0);
    } else {
      assert forall i :: 0 < i < |a| && i < |b| ==> a[..i][0] == a[0] && b[..i][0] == b[0];
    }
  }

  predicate StrictlySorted(s: seq<string>) {
    forall i, j :: 0 <= i < j < |s| ==> LexLeq(s[i], s[j]) && s[i] != s[j]
  }

  function InsertKey(key: string, s: seq<string>): (r: seq<string>)
    requires StrictlySorted(s) && key !in s
    ensures |r| == |s| + 1 && forall k :: k in r <==> k == key || k in s
  {
    if s == [] || LexLeq(key, s[0]) then [key] + s else [s[0]] + InsertKey(key, s[1..])
  }

  lemma {:induction false} InsertKeySorted(key: string, s: seq<string>)
    requires StrictlySorted(s) && key !in s
    ensures StrictlySorted(InsertKey(key, s))
  {
    var r := InsertKey(key, s);
    if s == [] {
    } else if LexLeq(key, s[0]) {
      forall j | 0 <= j < |s| ensures LexLeq(key, s[j]) {
        if j > 0 {
          LexTransitive(key, s[0], s[j]);
        }
      }
    } else {
      InsertKeySorted(key, s[1..]);
      LexTotal(key, s[0]);
      forall j | 1 <= j < |r| ensures LexLeq(s[0], r[j]) && s[0] != r[j] {
        assert r[j] in InsertKey(key, s[1..]);
        if r[j] != key {
          var i :| 0 <= i < |s[1..]| && s[1..][i] == r[j];
          assert s[i + 1] == r[j];
        }
      }
    }
  }

  /** In a sorted list a key comes after its dotted ancestors. */
  lemma AncestorsFirst(s: seq<string>, i: nat, j: nat)
    requires StrictlySorted(s) && i < j < |s|
    ensures !Above(s[j], s[i])
  {
    if Above(s[j], s[i]) {
      assert s[j] <= s[j] + ".";
      PrefixIsLess(s[j], s[i]);
      LexAntisymmetric(s[i], s[j]);
    }
  }

  // ---------------------------------------------------------------------------------------------
  // The directory
  // ---------------------------------------------------------------------------------------------

  /** A name that denotes a file in the directory itself. */
  predicate FileName(name: string) {
    name != "" && name != "." && name != ".." && '/' !in name && '\0' !in name
  }

  /** Every well-formed key is a file name. */
  lemma ValidKeysAreFileNames(patch: Patch)
    ensures forall k :: k in patch && ValidKey(k) ==> FileName(k)
  {
    forall k | k in patch && ValidKey(k) ensures FileName(k) {
      forall c | c in k ensures c != '/' && c != '\0' {
        var i :| 0 <= i < |k| && k[i] == c;
        assert Fits(k, i);
      }
    }
  }

  /** The name under which a new value is written before it is renamed. */
  function Staging(key: string): string {
    key + ".tmp"
  }

  /** The files that are overwritten by staging the patch's values, and vanish when they are renamed. */
  predicate Staged(patch: Patch, name: string) {
    exists s :: s in patch && SetIn(patch, s) && Staging(s) == name
  }

  function Unstaged(prior: Values, patch: Patch): Values {
    map k | k in prior && !Staged(patch, k) :: prior[k]
  }

  /** What applying a patch to a directory does. */
  function Patched(prior: Values, patch: Patch): Values {
    Merged(Unstaged(prior, patch), patch)
  }

  /** A directory after several patches. */
  function AfterPatches(values: Values, patches: seq<Patch>): Values
    decreases |patches|
  {
    if patches == [] then values else AfterPatches(Patched(values, patches[0]), patches[1..])
  }

  class Dir {
    var present: bool
    var files: Values

    constructor ()
      ensures !present && files == map[]
    {
      present, files := false, map[];
    }

    ghost predicate Valid()
      reads this
    {
      !present ==> files == map[]
    }

    method Rename(from: string, to: string)
      requires from in files && from != to
      modifies this`files
      ensures files == (old(files) - {from})[to := old(files)[from]]
    {
      var data := files[from];
      files := (files - {from})[to := data];
    }

    /** Removes the file of a key and the files of its descendants. */
    method Unset(key: string) returns (ok: bool)
      requires Valid()
      modifies this`files
      ensures Valid() && ok == ValidKey(key)
      ensures files == if ok then Without(old(files), key) else old(files)
      ensures ok ==> forall k :: k in files <==> k in old(files) && !(Split(key, '.') <= Split(k, '.'))
    {
      ValidateKeyExactly(key, false);
      forall k ensures Covers(key, k) <==> Split(key, '.') <= Split(k, '.') {
        CoversExactly(key, k);
      }
      hide ValidateKey, ValidKey, Covers, Split;
      if !ValidateKey(key, false) {
        return false;
      }
      if !present {
        return true;
      }
      var names := files.Keys;
      while names != {}
        invariant names <= old(files).Keys
        invariant files == map k | k in old(files) && (k in names || !Covers(key, k)) :: old(files)[k]
        decreases names
      {
        var name :| name in names;
        names := names - {name};
        if Covers(key, name) {
          files := files - {name};
        }
      }
      ok := true;
    }

    /** Writes one value: to the staging name first, then to its own. */
    method Put(key: string, value: string)
      requires Valid() && present
      modifies this`files
      ensures Valid() && files == (old(files) - {Staging(key)})[key := value]
    {
      files := files[Staging(key) := value];
      Rename(Staging(key), key);
    }

    /** Applies the entries in sorted order. Stops at a key that is unset but malformed; `done` is the
        part of the patch that was applied. */
    method ApplyPatch(patch: Patch) returns (ok: bool, ghost done: Patch)
      requires Valid() && forall s :: s in patch && SetIn(patch, s) ==> FileName(s)
      modifies this
      ensures Valid() && present
      ensures ok <==> forall u :: u in patch && UnsetIn(patch, u) ==> ValidKey(u)
      ensures done.Keys <= patch.Keys && (forall k :: k in done ==> done[k] == patch[k]) && (ok ==> done == patch)
      ensures !ok ==> exists u ::
                && u in patch && UnsetIn(patch, u) && !ValidKey(u)
                && forall k :: k in done <==> k in patch && k != u && LexLeq(k, u)
      ensures files == Patched(old(files), done)
    {
      hide ValidKey, Above, Patched, StrictlySorted;
      present := true;
      var keys := SortedKeys(patch);
      done := map[];
      NothingPatched(files);
      for i := 0 to |keys|
        invariant Valid() && present
        invariant forall k :: k in done <==> k in keys[..i]
        invariant forall k :: k in done ==> k in patch && done[k] == patch[k]
        invariant files == Patched(old(files), done)
        invariant forall u :: u in done && UnsetIn(done, u) ==> ValidKey(u)
      {
        var key := keys[i];
        forall s | s in done ensures s != key && !Above(key, s) {
          var j :| 0 <= j < i && keys[j] == s;
          SortedDistinct(keys, j, i);
          AncestorsFirst(keys, j, i);
        }
        assert key in keys && keys[..i + 1] == keys[..i] + [key];
        match patch[key] {
          case None =>
            ok := Unset(key);
            if !ok {
              assert UnsetIn(patch, key);
              SortedUpTo(keys, i);
              return;
            }
            PatchedUnset(old(files), done, key);
          case Some(value) =>
            Put(key, value);
            PatchedSet(old(files), done, key, value);
        }
        done := done[key := patch[key]];
      }
      assert keys[..|keys|] == keys;
      assert done == patch;
      ok := true;
    }

    /** Reads all values back, if every file name is a well-formed key. */
    method Load() returns (r: Result<Values>)
      requires Valid()
      ensures r.Ok? <==> forall k :: k in files ==> ValidKey(k)
      ensures r.Ok? ==> r.value == files
    {
      if !present {
        return Ok(map[]);
      }
      var out: Values := map[];
      var names := files.Keys;
      while names != {}
        invariant names <= files.Keys
        invariant out == map k | k in files && k !in names :: files[k]
        invariant forall k :: k in out ==> ValidKey(k)
        decreases names
      {
        var name :| name in names;
        names := names - {name};
        ValidateKeyExactly(name, false);
        if !ValidateKey(name, false) {
          return Err;
        }
        out := out[name := files[name]];
      }
      r := Ok(out);
    }
  }

  /** The keys of a patch, sorted. */
  method SortedKeys(patch: Patch) returns (keys: seq<string>)
    ensures StrictlySorted(keys) && forall k :: k in keys <==> k in patch
  {
    keys := [];
    var rest := patch.Keys;
    while rest != {}
      invariant rest <= patch.Keys
      invariant StrictlySorted(keys) && forall k :: k in keys <==> k in patch && k !in rest
      decreases rest
    {
      var key :| key in rest;
      rest := rest - {key};
      InsertKeySorted(key, keys);
      keys := InsertKey(key, keys);
    }
  }

  lemma SortedDistinct(keys: seq<string>, i: nat, j: nat)
    requires StrictlySorted(keys) && i < j < |keys|
    ensures keys[i] != keys[j]
  {
  }

  /** The keys before one of them in a sorted list are the smaller ones. */
  lemma SortedUpTo(keys: seq<string>, i: nat)
    requires StrictlySorted(keys) && i < |keys|
    ensures forall k :: k in keys[..i] <==> k in keys && k != keys[i] && LexLeq(k, keys[i])
  {
    forall k | k in keys && k != keys[i] && LexLeq(k, keys[i]) ensures k in keys[..i] {
      var j :| 0 <= j < |keys| && keys[j] == k;
      if j > i {
        LexAntisymmetric(keys[i], k);
      }
    }
  }

  lemma NothingPatched(prior: Values)
    ensures Patched(prior, map[]) == prior
  {
    assert Unstaged(prior, map[]) == prior;
  }

  lemma PatchedUnset(prior: Values, patch: Patch, key: string)
    requires key !in patch && forall s :: s in patch ==> !Above(key, s)
    ensures Patched(prior, patch[key := None]) == Without(Patched(prior, patch), key)
  {
    hide Above, Merged, Without, Staging;
    var more := patch[key := None];
    forall n ensures Staged(more, n) <==> Staged(patch, n) {
      if Staged(patch, n) {
        var s :| s in patch && SetIn(patch, s) && Staging(s) == n;
        assert SetIn(more, s);
      }
      if Staged(more, n) {
        var s :| s in more && SetIn(more, s) && Staging(s) == n;
        assert SetIn(patch, s);
      }
    }
    assert Unstaged(prior, more) == Unstaged(prior, patch);
    MergedUnset(Unstaged(prior, patch), patch, key);
  }

  lemma StagedSet(patch: Patch, key: string, value: string, n: string)
    requires key !in patch
    ensures Staged(patch[key := Some(value)], n) <==> Staged(patch, n) || n == Staging(key)
  {
    hide Staging;
    var more := patch[key := Some(value)];
    assert SetIn(more, key);
    if Staged(patch, n) {
      var s :| s in patch && SetIn(patch, s) && Staging(s) == n;
      assert SetIn(more, s);
    }
    if Staged(more, n) {
      var s :| s in more && SetIn(more, s) && Staging(s) == n;
      assert s != key ==> SetIn(patch, s);
    }
  }

  lemma MergedDrop(prior: Values, patch: Patch, name: string)
    requires !SetIn(patch, name)
    ensures Merged(prior - {name}, patch) == Merged(prior, patch) - {name}
  {
    hide Removed;
  }

  lemma PatchedSet(prior: Values, patch: Patch, key: string, value: string)
    requires key !in patch && forall s :: s in patch ==> !Above(key, s)
    ensures Patched(prior, patch[key := Some(value)]) == (Patched(prior, patch) - {Staging(key)})[key := value]
  {
    var tmp, more := Staging(key), patch[key := Some(value)];
    assert Above(key, tmp);
    hide Above, Staging, Staged, Merged;
    forall n ensures Staged(more, n) <==> Staged(patch, n) || n == tmp {
      StagedSet(patch, key, value, n);
    }
    assert Unstaged(prior, more) == Unstaged(prior, patch) - {tmp};
    MergedSet(Unstaged(prior, more), patch, key, value);
    MergedDrop(Unstaged(prior, patch), patch, tmp);
  }

  // ---------------------------------------------------------------------------------------------
  // When this is what a patch is meant to do
  // ---------------------------------------------------------------------------------------------

  /** No stored value sits under the staging name of a key that is set, unless the patch sets or unsets
      it as well. */
  predicate NoClobber(prior: Values, patch: Patch) {
    forall s :: s in patch && SetIn(patch, s) && Staging(s) in prior ==>
      SetIn(patch, Staging(s)) || Removed(patch, Staging(s))
  }

  /** Applying a patch to a directory does what it is meant to exactly when staging destroys nothing. */
  lemma PatchedExactly(prior: Values, patch: Patch)
    ensures Patched(prior, patch) == Merged(prior, patch) <==> NoClobber(prior, patch)
  {
    hide Covers, Staging, Removed;
    if NoClobber(prior, patch) {
      forall k | k in Merged(prior, patch) && Staged(patch, k) ensures k in Patched(prior, patch) {
        var s :| s in patch && SetIn(patch, s) && Staging(s) == k;
      }
      assert Patched(prior, patch) == Merged(prior, patch);
    } else {
      var s :| s in patch && SetIn(patch, s) && Staging(s) in prior && !SetIn(patch, Staging(s)) &&
        !Removed(patch, Staging(s));
      assert Staged(patch, Staging(s));
      assert Staging(s) in Merged(prior, patch) && Staging(s) !in Patched(prior, patch);
    }
  }

  /** Setting `a` destroys what is stored as `a.tmp`, although the patch does not mention it. */
  lemma StagingDestroys()
    ensures var prior, patch: Patch := map["a.tmp" := "x"], map["a" := Some("y")];
            Patched(prior, patch) == map["a" := "y"] && Merged(prior, patch) == map["a.tmp" := "x", "a" := "y"]
  {
    var prior, patch: Patch := map["a.tmp" := "x"], map["a" := Some("y")];
    assert Staging("a") == "a.tmp" && SetIn(patch, "a");
    assert Staged(patch, "a.tmp");
    assert !Removed(patch, "a.tmp");
    assert Unstaged(prior, patch) == map[];
    assert Sets(patch) == map["a" := "y"];
  }

  /** A key whose last segment is `tmp`. */
  predicate EndsInTmp(key: string) {
    |key| >= 4 && key[|key| - 4..] == ".tmp"
  }

  lemma NoTmpNoClobber(prior: Values, patch: Patch)
    requires forall k :: k in prior ==> !EndsInTmp(k)
    ensures NoClobber(prior, patch)
  {
    forall s ensures EndsInTmp(Staging(s)) {
      assert Staging(s)[|s|..] == ".tmp";
    }
  }
}
