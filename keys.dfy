/**
 * The naming scheme of the key directory and `KeyManager.list_labels`.
 *
 * `generate_keypair` writes `{label}_ecc.sk`, `{label}_ecc.pk`,
 * `{label}_pq.sk` and `{label}_pq.pk`; `list_labels` reads the directory
 * listing (here a sequence of file names), keeps the names ending in
 * `_ecc.sk`, cuts the name at the last occurrence of that suffix, and
 * returns the distinct labels sorted as Python sorts strings.
 */
module Keys {
  import opened Primitives

  const EccSecretSuffix: string := "_ecc.sk"

  /** The four files `generate_keypair` writes for a label, in the order it writes them. */
  function KeyFileNames(keyLabel: string): (names: seq<string>)
    ensures |names| == 4
  {
    [keyLabel + "_ecc.sk", keyLabel + "_ecc.pk", keyLabel + "_pq.sk", keyLabel + "_pq.pk"]
  }

  /** `s.endswith(suffix)` */
  predicate EndsWith(s: string, suffix: string) {
    |suffix| <= |s| && s[|s| - |suffix|..] == suffix
  }

  /** s ends with suffix exactly when it is some string followed by suffix. */
  lemma EndsWithConcat(s: string, suffix: string)
    ensures EndsWith(s, suffix) <==> exists head :: s == head + suffix
  {
    if EndsWith(s, suffix) {
      assert s == s[..|s| - |suffix|] + suffix;
    }
    forall head | s == head + suffix ensures EndsWith(s, suffix) {
      assert s[|s| - |suffix|..] == suffix;
    }
  }

  predicate OccursAt(s: string, sep: string, i: nat) {
    i + |sep| <= |s| && s[i..i + |sep|] == sep
  }

  /** The last start position at or before i where sep occurs in s. */
  function LastOccurrenceFrom(s: string, sep: string, i: nat): (r: Option<nat>)
    requires i + |sep| <= |s|
    ensures r.Some? ==> r.value <= i && OccursAt(s, sep, r.value)
    ensures r.Some? ==> forall j :: r.value < j <= i ==> !OccursAt(s, sep, j)
    ensures r.None? ==> forall j :: 0 <= j <= i ==> !OccursAt(s, sep, j)
    decreases i
  {
    if s[i..i + |sep|] == sep then Some(i)
    else if i == 0 then None
    else LastOccurrenceFrom(s, sep, i - 1)
  }

  /** `s.rfind(sep)`, None for -1. */
  function LastOccurrence(s: string, sep: string): (r: Option<nat>)
    ensures r.Some? ==> OccursAt(s, sep, r.value) && forall j :: r.value < j ==> !OccursAt(s, sep, j)
    ensures r.None? ==> forall j :: !OccursAt(s, sep, j)
  {
    if |sep| > |s| then None else LastOccurrenceFrom(s, sep, |s| - |sep|)
  }

  /**
   * `s.rsplit(sep, 1)[0]`: the part of s before the last occurrence of sep,
   * or s itself when sep does not occur.
   */
  function RSplitHead(s: string, sep: string): (head: string)
    ensures |head| <= |s| && head == s[..|head|]
    ensures |head| < |s| ==> OccursAt(s, sep, |head|) && forall j :: |head| < j ==> !OccursAt(s, sep, j)
    ensures |head| == |s| && |sep| > 0 ==> forall j :: !OccursAt(s, sep, j)
  {
    match LastOccurrence(s, sep)
    case None => s
    case Some(i) => s[..i]
  }

  /** When s ends with sep, its last occurrence is that suffix, so the head is s without it. */
  lemma SuffixIsLastOccurrence(s: string, sep: string)
    requires EndsWith(s, sep)
    ensures RSplitHead(s, sep) == s[..|s| - |sep|]
  {
  }

  /** The labels the directory listing yields: one per file name ending in `_ecc.sk`. */
  function LabelSet(files: seq<string>): set<string> {
    set f | f in files && EndsWith(f, EccSecretSuffix) :: RSplitHead(f, EccSecretSuffix)
  }

  /**
   * A label is listed exactly when its ECC secret-key file is present; the
   * other three key files play no part.
   */
  lemma LabelSetMembership(files: seq<string>, keyLabel: string)
    ensures keyLabel in LabelSet(files) <==> keyLabel + EccSecretSuffix in files
  {
    if keyLabel in LabelSet(files) {
      var f :| f in files && EndsWith(f, EccSecretSuffix) && RSplitHead(f, EccSecretSuffix) == keyLabel;
      SuffixIsLastOccurrence(f, EccSecretSuffix);
      assert f == f[..|f| - |EccSecretSuffix|] + EccSecretSuffix;
    }
    if keyLabel + EccSecretSuffix in files {
      var f := keyLabel + EccSecretSuffix;
      assert EndsWith(f, EccSecretSuffix);
      SuffixIsLastOccurrence(f, EccSecretSuffix);
      assert f[..|f| - |EccSecretSuffix|] == keyLabel;
    }
  }

  /** Of the four files written for a label, only the first ends in `_ecc.sk`. */
  lemma OnlyEccSecretFileMatches(keyLabel: string)
    ensures EndsWith(KeyFileNames(keyLabel)[0], EccSecretSuffix)
    ensures !EndsWith(KeyFileNames(keyLabel)[1], EccSecretSuffix)
    ensures !EndsWith(KeyFileNames(keyLabel)[2], EccSecretSuffix)
    ensures !EndsWith(KeyFileNames(keyLabel)[3], EccSecretSuffix)
  {
    var names := KeyFileNames(keyLabel);
    var n := |keyLabel|;
    assert names[0][n..] == EccSecretSuffix;
    assert names[1][n + 5] == 'p' && EccSecretSuffix[5] == 's';
    assert names[2][n + 2] == 'q' && EccSecretSuffix[3] == 'c';
    assert names[3][n + 2] == 'q';
  }

  /**
   * Naming round trip: the files written for a label make that label, and
   * no other, appear. A label holding a path separator or a NUL does not
   * name four directory entries, so it is excluded.
   */
  lemma GeneratedFilesYieldLabel(keyLabel: string)
    requires '/' !in keyLabel && '\0' !in keyLabel
    ensures LabelSet(KeyFileNames(keyLabel)) == {keyLabel}
  {
    var names := KeyFileNames(keyLabel);
    OnlyEccSecretFileMatches(keyLabel);
    SuffixIsLastOccurrence(names[0], EccSecretSuffix);
    assert names[0][..|names[0]| - |EccSecretSuffix|] == keyLabel;
    forall f | f in names && EndsWith(f, EccSecretSuffix) ensures f == names[0] {
    }
  }

  /** Contrary to the method's docstring, the `_pq` files need not exist for a label to be listed. */
  lemma EccSecretAloneYieldsLabel(keyLabel: string)
    ensures LabelSet([keyLabel + EccSecretSuffix]) == {keyLabel}
  {
    LabelSetMembership([keyLabel + EccSecretSuffix], keyLabel);
    forall l | l in LabelSet([keyLabel + EccSecretSuffix]) ensures l == keyLabel {
      LabelSetMembership([keyLabel + EccSecretSuffix], l);
      assert l == (l + EccSecretSuffix)[..|l|];
    }
  }

  /** Python's `<` on strings: lexicographic by code point, a proper prefix first. */
  predicate Less(a: string, b: string) {
    if a == [] then b != []
    else if b == [] then false
    else if a[0] != b[0] then a[0] < b[0]
    else Less(a[1..], b[1..])
  }

  lemma {:induction false} LessIrreflexive(a: string)
    ensures !Less(a, a)
  {
    if a != [] {
      LessIrreflexive(a[1..]);
    }
  }

  lemma {:induction false} LessTransitive(a: string, b: string, c: string)
    requires Less(a, b) && Less(b, c)
    ensures Less(a, c)
  {
    if a != [] && b != [] && c != [] && a[0] == b[0] && b[0] == c[0] {
      LessTransitive(a[1..], b[1..], c[1..]);
    }
  }

  lemma {:induction false} LessTotal(a: string, b: string)
    requires a != b
    ensures Less(a, b) || Less(b, a)
  {
    if a != [] && b != [] && a[0] == b[0] {
      assert a == [a[0]] + a[1..] && b == [b[0]] + b[1..];
      LessTotal(a[1..], b[1..]);
    }
  }

  /** Ascending with no repeats, as `sorted` leaves a set. */
  predicate StrictlySorted(s: seq<string>) {
    forall i, j :: 0 <= i < j < |s| ==> Less(s[i], s[j])
  }

  /** An element below every element of a strictly sorted sequence can go in front. */
  lemma PrependSorted(head: string, tail: seq<string>)
    requires StrictlySorted(tail)
    requires forall k :: 0 <= k < |tail| ==> Less(head, tail[k])
    ensures StrictlySorted([head] + tail)
  {
  }

  /** Insertion of a new element into a strictly sorted sequence. */
  function Insert(s: seq<string>, x: string): (r: seq<string>)
    requires StrictlySorted(s) && x !in s
    ensures StrictlySorted(r)
    ensures multiset(r) == multiset(s) + multiset{x}
  {
    if s == [] then [x]
    else if Less(x, s[0]) then
      assert forall j :: 0 <= j < |s| ==> Less(x, s[j]) by {
        forall j | 0 < j < |s| { LessTransitive(x, s[0], s[j]); }
      }
      PrependSorted(x, s);
      [x] + s
    else
      assert StrictlySorted(s[1..]);
      LessTotal(x, s[0]);
      var tail := Insert(s[1..], x);
      forall k | 0 <= k < |tail| ensures Less(s[0], tail[k]) {
        assert tail[k] in multiset(tail);
        if tail[k] != x {
          var j :| 0 <= j < |s[1..]| && s[1..][j] == tail[k];
          assert s[j + 1] == tail[k];
        }
      }
      PrependSorted(s[0], tail);
      assert s == [s[0]] + s[1..];
      [s[0]] + tail
  }

  /** A strictly sorted sequence is determined by its elements: `sorted` has one possible result. */
  lemma {:induction false} StrictlySortedUnique(s: seq<string>, t: seq<string>)
    requires StrictlySorted(s) && StrictlySorted(t)
    requires forall x :: x in s <==> x in t
    ensures s == t
    decreases |s|
  {
    if s != [] {
      assert s[0] in t;
    }
    if t != [] {
      assert t[0] in s;
    }
    if s != [] && t != [] {
      assert s[0] == t[0] by {
        if s[0] != t[0] {
          assert s[0] in t;
          var j :| 0 <= j < |t| && t[j] == s[0];
          assert t[0] in s;
          var i :| 0 <= i < |s| && s[i] == t[0];
          assert Less(t[0], s[0]) by { if j > 0 { } else { assert false; } }
          assert Less(s[0], t[0]) by { if i > 0 { } else { assert false; } }
          LessTransitive(s[0], t[0], s[0]);
          LessIrreflexive(s[0]);
        }
      }
      forall x | x in s[1..] ensures x in t[1..] {
        var i :| 1 <= i < |s| && s[i] == x;
        assert x in t;
        var j :| 0 <= j < |t| && t[j] == x;
        if j == 0 { LessIrreflexive(s[0]); }
      }
      forall x | x in t[1..] ensures x in s[1..] {
        var j :| 1 <= j < |t| && t[j] == x;
        assert x in s;
        var i :| 0 <= i < |s| && s[i] == x;
        if i == 0 { LessIrreflexive(t[0]); }
      }
      StrictlySortedUnique(s[1..], t[1..]);
      assert s == [s[0]] + s[1..] && t == [t[0]] + t[1..];
    }
  }

  /** `sorted` applied to a set of labels: each label once, in ascending order. */
  method SortLabels(found: set<string>) returns (labels: seq<string>)
    ensures StrictlySorted(labels)
    ensures forall l :: l in labels <==> l in found
  {
    labels := [];
    var rest := found;
    while rest != {}
      invariant StrictlySorted(labels)
      invariant forall l :: l in labels ==> l in found && l !in rest
      invariant forall l :: l in found ==> l in labels || l in rest
      invariant rest <= found
      decreases |rest|
    {
      var x :| x in rest;
      labels := Insert(labels, x);
      assert forall l :: l in labels <==> l in multiset(labels);
      rest := rest - {x};
    }
  }

  /**
   * `list_labels`: a loop collecting labels into a set, then `sorted`. The
   * result lists each label once, in ascending order, and holds exactly the
   * labels whose `_ecc.sk` file is in the listing.
   */
  method ListLabels(files: seq<string>) returns (labels: seq<string>)
    ensures StrictlySorted(labels)
    ensures forall l :: l in labels <==> l in LabelSet(files)
    ensures forall l :: l in labels <==> l + EccSecretSuffix in files
  {
    var found: set<string> := {};
    for i := 0 to |files|
      invariant found == LabelSet(files[..i])
    {
      var name := files[i];
      assert files[..i + 1] == files[..i] + [name];
      if EndsWith(name, EccSecretSuffix) {
        found := found + {RSplitHead(name, EccSecretSuffix)};
      }
    }
    assert files[..|files|] == files;
    labels := SortLabels(found);
    forall l ensures l in labels <==> l + EccSecretSuffix in files {
      LabelSetMembership(files, l);
    }
  }
}
