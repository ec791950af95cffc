/** utils/dez_to_bq_datatypes.py: the rewrite of `<DTLISTNAME>K</DTLISTNAME>` tags from
    design-tool type names to BigQuery type names, and the output path of the converted
    file.

    The source applies one `str.replace` per `TYPE_MAP` entry, in the dict's order. The
    model keeps that sequential definition (`ConvertContent`) and proves it equal to a
    one-pass reference (`Rewrite`) that reads the text left to right and replaces each
    complete tag whose type name is a key of the map. */
module BqTypes {
  import opened Wrappers
  import opened Text
  import opened Seqs
  import opened Dict
  import opened Defaults

  const Open: string := "<DTLISTNAME>"
  const Close: string := "</DTLISTNAME>"

  /** The tag the source builds with `f"<DTLISTNAME>{k}</DTLISTNAME>"`. */
  function Tag(k: string): string {
    Open + k + Close
  }

  /** A type name that cannot end early inside a tag. */
  predicate NoLt(k: string) {
    '<' !in k
  }

  /** `TYPE_MAP`, in the order of its dict literal. */
  const TYPE_MAP: seq<(string, string)> := [
    ("INTEGER", "INT64"),
    ("INT", "INT64"),
    ("SMALLINT", "INT64"),
    ("BIGINT", "INT64"),
    ("VARCHAR", "STRING"),
    ("CHAR", "STRING"),
    ("TEXT", "STRING"),
    ("NVARCHAR", "STRING"),
    ("DECIMAL", "NUMERIC"),
    ("FLOAT", "FLOAT64"),
    ("DOUBLE", "FLOAT64"),
    ("REAL", "FLOAT64"),
    ("NUMERIC", "NUMERIC"),
    ("DATE", "DATE"),
    ("DATETIME", "DATETIME"),
    ("TIMESTAMP", "TIMESTAMP"),
    ("BOOLEAN", "BOOL"),
    ("BOOL", "BOOL")
  ]

  // ---------------------------------------------------------------------------
  // The source's definition

  /** The loop `for old, new in TYPE_MAP.items(): content = content.replace(...)`. */
  function ReplaceTags(content: string, ps: seq<(string, string)>): string
    decreases |ps|
  {
    if |ps| == 0 then content
    else ReplaceTags(Replace(content, Tag(ps[0].0), Tag(ps[0].1)), ps[1..])
  }

  /** The converted file content. */
  function ConvertContent(content: string): string {
    ReplaceTags(content, TYPE_MAP)
  }

  /** `file_path.replace(".dez", "_bq.dez")`; a path without ".dez" is kept. */
  function OutPath(path: string): (r: string)
    ensures !IsInfix(".dez", path) ==> r == path
  {
    Replace(path, ".dez", "_bq.dez")
  }

  /** Every ".dez" of the path, left to right, becomes "_bq.dez". */
  lemma OutPathSpec(path: string)
    ensures OutPath(path) == Join(SplitOn(path, ".dez"), "_bq.dez")
    ensures Join(SplitOn(path, ".dez"), ".dez") == path
  {
    ReplaceIsJoin(path, ".dez", "_bq.dez");
    SplitOnJoin(path, ".dez");
  }

  /** A ".dez" in a directory name is renamed too: `dir.dez/a.dez` becomes
      `dir_bq.dez/a_bq.dez`. */
  lemma OutPathRenamesDirectory(dir: string, file: string)
    requires '.' !in dir && '.' !in file
    ensures OutPath(dir + ".dez/" + file + ".dez") == dir + "_bq.dez/" + file + "_bq.dez"
  {
    var pat, rep := ".dez", "_bq.dez";
    var tail := "/" + file + ".dez";
    ReplaceHit(".dez", pat, rep);
    assert ".dez"[4..] == "";
    ReplaceKeepsPrefix("/" + file, ".dez", pat, rep);
    assert tail == ("/" + file) + ".dez";
    ReplaceHit(".dez" + tail, pat, rep);
    assert (".dez" + tail)[4..] == tail;
    ReplaceKeepsPrefix(dir, ".dez" + tail, pat, rep);
    assert dir + ".dez/" + file + ".dez" == dir + (".dez" + tail);
  }

  // ---------------------------------------------------------------------------
  // The one-pass reference

  lemma OpenChars()
    ensures |Open| == 12 && Open[0] == '<' && Open[1] == 'D'
    ensures forall i :: 1 <= i < |Open| ==> Open[i] != '<'
  {
  }

  lemma CloseChars()
    ensures |Close| == 13 && Close[0] == '<' && Close[1] == '/'
    ensures forall i :: 1 <= i < |Close| ==> Close[i] != '<'
  {
  }

  /** The type name at the front of `r` when it is followed by the closing tag: the
      text up to the first '<', which must open `Close`. */
  function NameThenClose(r: string): (k: Option<string>)
    decreases |r|
  {
    if |r| == 0 then None
    else if r[0] == '<' then (if StartsWith(r, Close) then Some("") else None)
    else
      match NameThenClose(r[1..])
      case Some(k) => Some([r[0]] + k)
      case None => None
  }

  lemma {:induction false} NameThenCloseSome(r: string)
    requires NameThenClose(r).Some?
    ensures NoLt(NameThenClose(r).value) && StartsWith(r, NameThenClose(r).value + Close)
    decreases |r|
  {
    if r[0] != '<' {
      NameThenCloseSome(r[1..]);
      var k := NameThenClose(r[1..]).value;
      assert r == [r[0]] + r[1..];
      assert ([r[0]] + k) + Close == [r[0]] + (k + Close);
    }
  }

  lemma {:induction false} NameThenCloseOf(k: string, x: string)
    requires NoLt(k)
    ensures NameThenClose(k + Close + x) == Some(k)
    decreases |k|
  {
    var r := k + Close + x;
    if |k| == 0 {
      CloseChars();
      assert r == Close + x;
      assert r[..|Close|] == Close;
    } else {
      assert r[0] == k[0];
      assert r[1..] == k[1..] + Close + x;
      NameThenCloseOf(k[1..], x);
      assert [k[0]] + k[1..] == k;
    }
  }

  /** The type name of the complete tag `s` starts with, if it starts with one. */
  function KeyAt(s: string): (r: Option<string>)
  {
    if StartsWith(s, Open) then NameThenClose(s[|Open|..]) else None
  }

  /** A tag found at the front really is there. */
  lemma KeyAtSome(s: string)
    requires KeyAt(s).Some?
    ensures NoLt(KeyAt(s).value) && StartsWith(s, Tag(KeyAt(s).value))
    ensures |s| >= 2 && s[0] == '<' && s[1] == 'D'
  {
    OpenChars();
    var r := s[|Open|..];
    NameThenCloseSome(r);
    var k := KeyAt(s).value;
    assert s == Open + r;
    assert r[..|k + Close|] == k + Close;
    assert s[..|Tag(k)|] == Open + r[..|k + Close|];
    assert s[0] == Open[0] && s[1] == Open[1];
  }

  /** Text that starts with the tag of a type name reads back that type name. */
  lemma KeyAtTag(k: string, x: string)
    requires NoLt(k)
    ensures KeyAt(Tag(k) + x) == Some(k)
  {
    var s := Tag(k) + x;
    assert s == Open + (k + Close + x);
    assert s[..|Open|] == Open;
    assert s[|Open|..] == k + Close + x;
    NameThenCloseOf(k, x);
  }

  /** Each complete tag whose type name is a key of `m` is replaced by the tag of the
      mapped name; every other character is copied. */
  function Rewrite(m: map<string, string>, s: string): string
    decreases |s|
  {
    if |s| == 0 then ""
    else
      match KeyAt(s)
      case Some(k) =>
        KeyAtSome(s);
        if k in m then Tag(m[k]) + Rewrite(m, s[|Tag(k)|..])
        else [s[0]] + Rewrite(m, s[1..])
      case None => [s[0]] + Rewrite(m, s[1..])
  }

  /** Text that does not begin with "<D" does not start with a tag. */
  lemma KeyAtNone(s: string)
    requires |s| == 0 || s[0] != '<' || (|s| > 1 && s[1] != 'D')
    ensures KeyAt(s) == None
  {
    OpenChars();
    if |s| >= |Open| {
      assert s[..|Open|][0] == s[0] && s[..|Open|][1] == s[1];
    }
  }

  /** Every tag begins with "<D". */
  lemma TagStart(k: string)
    ensures |Tag(k)| == |k| + 25 && Tag(k)[0] == '<' && Tag(k)[1] == 'D'
  {
    OpenChars();
    CloseChars();
    assert Tag(k)[0] == Open[0] && Tag(k)[1] == Open[1];
  }

  /** Text in which no '<' is followed by 'D' and that does not end in '<': no tag
      can start inside it. */
  predicate NoTagOpening(w: string) {
    forall i :: 0 <= i < |w| && w[i] == '<' ==> i + 1 < |w| && w[i + 1] != 'D'
  }

  lemma NoTagOpeningTail(w: string)
    requires |w| > 0 && NoTagOpening(w)
    ensures NoTagOpening(w[1..])
  {
    var v := w[1..];
    forall i | 0 <= i < |v| && v[i] == '<' ensures i + 1 < |v| && v[i + 1] != 'D' {
      assert v[i] == w[i + 1];
    }
  }

  /** The tag of a name without '<' holds no tag opening after its first character. */
  lemma TagTail(k: string)
    requires NoLt(k)
    ensures NoTagOpening(Tag(k)[1..])
  {
    OpenChars();
    CloseChars();
    var t := Tag(k);
    var w := t[1..];
    forall i | 0 <= i < |w| ensures w[i] == '<' ==> i + 1 < |w| && w[i + 1] != 'D' {
      var j := i + 1;
      assert w[i] == t[j];
      if j < |Open| {
        assert t[j] == Open[j];
      } else if j < |Open| + |k| {
        assert t[j] == k[j - |Open|];
      } else if j == |Open| + |k| {
        assert w[i + 1] == Close[1];
      } else {
        assert t[j] == Close[j - |Open| - |k|];
      }
    }
  }

  /** Text without a tag opening is copied by a rewrite. */
  lemma {:induction false} WalkCopy(m: map<string, string>, w: string, x: string)
    requires NoTagOpening(w)
    ensures Rewrite(m, w + x) == w + Rewrite(m, x)
    decreases |w|
  {
    if |w| > 0 {
      WalkStep(m, w, x);
      NoTagOpeningTail(w);
      WalkCopy(m, w[1..], x);
      assert [w[0]] + w[1..] == w;
    } else {
      assert w + x == x;
    }
  }

  /** The first character of text without a tag opening is copied. */
  lemma WalkStep(m: map<string, string>, w: string, x: string)
    requires |w| > 0 && NoTagOpening(w)
    ensures Rewrite(m, w + x) == [w[0]] + Rewrite(m, w[1..] + x)
  {
    var s := w + x;
    assert s[0] == w[0];
    assert w[0] == '<' ==> s[1] == w[1];
    KeyAtNone(s);
    RewriteCopies(m, s);
    assert s[1..] == w[1..] + x;
  }

  /** A tag at the front is replaced by the tag of its mapped name, or kept when its
      name is not a key. */
  lemma RewriteTag(m: map<string, string>, k: string, x: string)
    requires NoLt(k)
    ensures Rewrite(m, Tag(k) + x) == (if k in m then Tag(m[k]) else Tag(k)) + Rewrite(m, x)
  {
    KeyAtTag(k, x);
    if k in m {
      RewriteTagReplaced(m, k, x);
    } else {
      RewriteTagKept(m, k, x);
    }
  }

  lemma RewriteTagReplaced(m: map<string, string>, k: string, x: string)
    requires KeyAt(Tag(k) + x) == Some(k) && k in m
    ensures Rewrite(m, Tag(k) + x) == Tag(m[k]) + Rewrite(m, x)
  {
    var s := Tag(k) + x;
    RewriteFound(m, s);
    assert s[|Tag(k)|..] == x;
  }

  lemma RewriteTagKept(m: map<string, string>, k: string, x: string)
    requires NoLt(k) && KeyAt(Tag(k) + x) == Some(k) && k !in m
    ensures Rewrite(m, Tag(k) + x) == Tag(k) + Rewrite(m, x)
  {
    var s := Tag(k) + x;
    var t := Tag(k);
    RewriteCopies(m, s);
    TagStart(k);
    TagTail(k);
    assert s[1..] == t[1..] + x;
    WalkCopy(m, t[1..], x);
    assert [s[0]] + t[1..] == t;
  }

  /** Text that does not start with the tag of a key has its first character copied. */
  lemma RewriteCopies(m: map<string, string>, s: string)
    requires |s| > 0 && (KeyAt(s) == None || KeyAt(s).value !in m)
    ensures Rewrite(m, s) == [s[0]] + Rewrite(m, s[1..])
  {
  }

  /** A rewrite of empty text is empty, and one that replaces a tag at the front
      starts with "<D". */
  lemma RewriteHead(m: map<string, string>, t: string)
    ensures |t| == 0 ==> Rewrite(m, t) == ""
    ensures KeyAt(t).Some? && KeyAt(t).value in m ==>
              |Rewrite(m, t)| >= 2 && Rewrite(m, t)[0] == '<' && Rewrite(m, t)[1] == 'D'
  {
    if KeyAt(t).Some? && KeyAt(t).value in m {
      RewriteFound(m, t);
      TagStart(m[KeyAt(t).value]);
    }
  }

  /** Text that starts with the tag of a key has the tag replaced. */
  lemma RewriteFound(m: map<string, string>, s: string)
    requires KeyAt(s).Some? && KeyAt(s).value in m
    ensures |Tag(KeyAt(s).value)| <= |s|
    ensures Rewrite(m, s) == Tag(m[KeyAt(s).value]) + Rewrite(m, s[|Tag(KeyAt(s).value)|..])
  {
    KeyAtSome(s);
  }

  /** A rewrite with a map that sends every key to itself changes nothing. */
  lemma {:induction false} RewriteIdentity(m: map<string, string>, s: string)
    requires forall k :: k in m ==> m[k] == k
    ensures Rewrite(m, s) == s
    decreases |s|
  {
    if |s| > 0 {
      match KeyAt(s)
      case Some(k) =>
        KeyAtSome(s);
        if k in m {
          RewriteIdentity(m, s[|Tag(k)|..]);
          assert s == Tag(k) + s[|Tag(k)|..];
        } else {
          RewriteIdentity(m, s[1..]);
        }
      case None =>
        RewriteIdentity(m, s[1..]);
    }
  }

  // ---------------------------------------------------------------------------
  // One `str.replace` is one rewrite

  /** `s.replace(Tag(o), Tag(n))` is the one-pass rewrite with the single entry o -> n. */
  lemma {:induction false} ReplaceIsRewrite(o: string, n: string, s: string)
    requires NoLt(o)
    ensures Replace(s, Tag(o), Tag(n)) == Rewrite(map[o := n], s)
    decreases |s|
  {
    if |s| > 0 {
      if StartsWith(s, Tag(o)) {
        assert s == Tag(o) + s[|Tag(o)|..];
        KeyAtTag(o, s[|Tag(o)|..]);
        RewriteFound(map[o := n], s);
        ReplaceIsRewrite(o, n, s[|Tag(o)|..]);
      } else {
        if KeyAt(s).Some? {
          KeyAtSome(s);
        }
        RewriteCopies(map[o := n], s);
        ReplaceIsRewrite(o, n, s[1..]);
      }
    }
  }

  // ---------------------------------------------------------------------------
  // Two rewrites in a row are one rewrite

  /** The map that rewriting with `m1` and then with `m2` amounts to. */
  function Compose(m1: map<string, string>, m2: map<string, string>): map<string, string> {
    map k | k in m1.Keys + m2.Keys ::
      if k in m1 then (if m1[k] in m2 then m2[m1[k]] else m1[k]) else m2[k]
  }

  /** The name a rewrite with `m` leaves in the tag of `k`. */
  function Image(m: map<string, string>, k: string): string {
    if k in m then m[k] else k
  }

  /** A rewrite never creates text that looks like the start of the copied text `w`
      unless the input started with it, as long as `w` holds no tag opening. */
  lemma {:induction false} PrefixKept(m: map<string, string>, t: string, w: string)
    requires NoTagOpening(w)
    requires StartsWith(Rewrite(m, t), w)
    ensures StartsWith(t, w)
    decreases |t|
  {
    if |w| > 0 {
      var r := Rewrite(m, t);
      RewriteHead(m, t);
      assert w[0] == r[0];
      assert |w| > 1 ==> w[1] == r[1];
      RewriteCopies(m, t);
      assert w[0] == t[0];
      assert r[1..] == Rewrite(m, t[1..]);
      assert r[1..][..|w| - 1] == w[1..];
      NoTagOpeningTail(w);
      PrefixKept(m, t[1..], w[1..]);
      assert t == [t[0]] + t[1..];
    }
  }

  /** If copying a leading '<' in front of rewritten text produced a tag, the input
      already held that tag. */
  lemma NoTagAfterLt(m: map<string, string>, s: string)
    requires |s| > 0 && s[0] == '<' && KeyAt(s) == None
    ensures KeyAt([s[0]] + Rewrite(m, s[1..])) == None
  {
    var y := Rewrite(m, s[1..]);
    var r := KeyAt([s[0]] + y);
    if r.Some? {
      var k := r.value;
      KeyAtSome([s[0]] + y);
      var t := Tag(k);
      var w := t[1..];
      assert ([s[0]] + y)[1..] == y;
      assert StartsWith(y, w);
      TagStart(k);
      TagTail(k);
      PrefixKept(m, s[1..], w);
      assert s == [s[0]] + s[1..];
      assert t == [t[0]] + w;
      assert s[..|t|] == t;
      assert s == t + s[|t|..];
      KeyAtTag(k, s[|t|..]);
    }
  }

  /** Rewriting with `m1` and then with `m2` is rewriting once with their composition,
      provided the names `m1` produces cannot end a tag early. */
  lemma {:induction false} RewriteCompose(m1: map<string, string>, m2: map<string, string>, s: string)
    requires forall k :: k in m1 ==> NoLt(m1[k])
    ensures Rewrite(m2, Rewrite(m1, s)) == Rewrite(Compose(m1, m2), s)
    decreases |s|
  {
    var c := Compose(m1, m2);
    if |s| > 0 {
      match KeyAt(s)
      case Some(k) =>
        KeyAtSome(s);
        var x := s[|Tag(k)|..];
        assert s == Tag(k) + x;
        RewriteTag(m1, k, x);
        var k1 := Image(m1, k);
        RewriteTag(m2, k1, Rewrite(m1, x));
        RewriteTag(c, k, x);
        assert Image(m2, k1) == Image(c, k);
        RewriteCompose(m1, m2, x);
      case None =>
        RewriteCopies(m1, s);
        RewriteCopies(c, s);
        if s[0] == '<' {
          NoTagAfterLt(m1, s);
        } else {
          KeyAtNone([s[0]] + Rewrite(m1, s[1..]));
        }
        RewriteCopies(m2, [s[0]] + Rewrite(m1, s[1..]));
        assert ([s[0]] + Rewrite(m1, s[1..]))[1..] == Rewrite(m1, s[1..]);
        RewriteCompose(m1, m2, s[1..]);
    }
  }

  // ---------------------------------------------------------------------------
  // The whole loop is one rewrite with the dict

  /** The dict a list of pairs builds when its keys are distinct. */
  function ToMap(ps: seq<(string, string)>): map<string, string>
    decreases |ps|
  {
    if |ps| == 0 then map[] else ToMap(ps[1..])[ps[0].0 := ps[0].1]
  }

  /** The dict holds exactly the listed keys. */
  lemma {:induction false} ToMapKeys(ps: seq<(string, string)>, k: string)
    ensures k in ToMap(ps) <==> k in Keys(ps)
    decreases |ps|
  {
    if |ps| > 0 {
      assert Keys(ps) == [ps[0].0] + Keys(ps[1..]);
      ToMapKeys(ps[1..], k);
    }
  }

  /** The pairs' names can all sit inside a tag. */
  predicate TagSafe(ps: seq<(string, string)>) {
    forall i :: 0 <= i < |ps| ==> NoLt(ps[i].0) && NoLt(ps[i].1)
  }

  /** Every target that is also a source maps to itself. */
  predicate TargetsFixed(ps: seq<(string, string)>) {
    forall i, j :: 0 <= i < |ps| && 0 <= j < |ps| && ps[i].1 == ps[j].0 ==> ps[j].1 == ps[j].0
  }

  /** Each `ps[i]` entry is what the built dict holds for its key. */
  lemma {:induction false} ToMapAt(ps: seq<(string, string)>, i: nat)
    requires Distinct(Keys(ps)) && i < |ps|
    ensures ps[i].0 in ToMap(ps) && ToMap(ps)[ps[i].0] == ps[i].1
    decreases |ps|
  {
    if i > 0 {
      assert Keys(ps) == [ps[0].0] + Keys(ps[1..]);
      assert Keys(ps)[i] == ps[i].0;
      ToMapAt(ps[1..], i - 1);
    }
  }

  /** Sequential replacement with pairs whose targets are fixed points is one rewrite
      with the dict the pairs build, whatever their order. */
  lemma {:induction false} ReplaceTagsIsRewrite(s: string, ps: seq<(string, string)>)
    requires Distinct(Keys(ps)) && TagSafe(ps) && TargetsFixed(ps)
    ensures ReplaceTags(s, ps) == Rewrite(ToMap(ps), s)
    decreases |ps|
  {
    if |ps| == 0 {
      RewriteIdentity(map[], s);
    } else {
      var o, n := ps[0].0, ps[0].1;
      var rest := ps[1..];
      PairsTail(ps);
      var mr := ToMap(rest);
      ReplaceTagsIsRewrite(Replace(s, Tag(o), Tag(n)), rest);
      ReplaceIsRewrite(o, n, s);
      RewriteCompose(map[o := n], mr, s);
      if n in mr {
        ToMapKeys(rest, n);
        var j := FirstIndex(Keys(rest), n);
        ToMapAt(rest, j);
        assert ps[j + 1] == rest[j];
      }
      ComposeSingle(o, n, mr);
    }
  }

  /** The conditions on the pairs hold for the pairs after the first. */
  lemma PairsTail(ps: seq<(string, string)>)
    requires |ps| > 0 && Distinct(Keys(ps)) && TagSafe(ps) && TargetsFixed(ps)
    ensures Distinct(Keys(ps[1..])) && TagSafe(ps[1..]) && TargetsFixed(ps[1..])
  {
    var rest := ps[1..];
    assert Keys(rest) == Keys(ps)[1..];
    forall i, j | 0 <= i < |rest| && 0 <= j < |rest| && rest[i].1 == rest[j].0
      ensures rest[j].1 == rest[j].0
    {
      assert ps[i + 1] == rest[i] && ps[j + 1] == rest[j];
    }
  }

  /** Putting a single entry before a map whose image of the entry's target is the
      target itself is adding that entry to the map. */
  lemma ComposeSingle(o: string, n: string, m: map<string, string>)
    requires n in m ==> m[n] == n
    ensures Compose(map[o := n], m) == m[o := n]
  {
  }

  /** The dict `TYPE_MAP` builds. */
  function TypeMap(): map<string, string> {
    ToMap(TYPE_MAP)
  }

  /** Composing a map whose targets are fixed points with itself gives the map back. */
  lemma ComposeFixed(m: map<string, string>)
    requires forall k :: k in m && m[k] in m ==> m[m[k]] == m[k]
    ensures Compose(m, m) == m
  {
  }

  /** The BigQuery type names `TYPE_MAP` produces. */
  const BigQueryTypes: seq<string> :=
    ["INT64", "STRING", "NUMERIC", "FLOAT64", "DATE", "DATETIME", "TIMESTAMP", "BOOL"]

  lemma TypeMapTargets()
    ensures forall i :: 0 <= i < |TYPE_MAP| ==> TYPE_MAP[i].1 in BigQueryTypes
  {
  }

  lemma BigQueryTypesHaveDefaults()
    ensures forall j :: 0 <= j < |BigQueryTypes| ==> BigQueryTypes[j] in DEFAULTS
  {
  }

  /** The only sources that are also targets are the names mapped to themselves. */
  lemma TypeMapTargetSources()
    ensures forall i :: 0 <= i < |TYPE_MAP| && TYPE_MAP[i].0 in BigQueryTypes ==>
              TYPE_MAP[i].1 == TYPE_MAP[i].0
  {
  }

  /** `TYPE_MAP` has distinct keys, names that fit in a tag, and fixed targets. */
  lemma TypeMapKeysDistinct()
    ensures Distinct(Keys(TYPE_MAP))
  {
    var ks := Keys(TYPE_MAP);
    forall i, j | 0 <= i < j < |ks| ensures ks[i] != ks[j] {
      assert ks[i] == TYPE_MAP[i].0 && ks[j] == TYPE_MAP[j].0;
    }
  }

  lemma TypeMapTagSafe()
    ensures TagSafe(TYPE_MAP)
  {
    TypeMapSourcesNoLt();
    BigQueryTypesNoLt();
    TypeMapTargets();
  }

  lemma TypeMapSourcesNoLt()
    ensures forall i :: 0 <= i < |TYPE_MAP| ==> NoLt(TYPE_MAP[i].0)
  {
  }

  lemma BigQueryTypesNoLt()
    ensures forall j :: 0 <= j < |BigQueryTypes| ==> NoLt(BigQueryTypes[j])
  {
  }

  lemma TypeMapWellFormed()
    ensures Distinct(Keys(TYPE_MAP)) && TagSafe(TYPE_MAP) && TargetsFixed(TYPE_MAP)
  {
    TypeMapKeysDistinct();
    TypeMapTagSafe();
    TypeMapTargets();
    TypeMapTargetSources();
  }

  /** The entry of the dict for `k` comes from a pair of the list. */
  lemma {:induction false} ToMapIndex(ps: seq<(string, string)>, k: string) returns (i: nat)
    requires Distinct(Keys(ps)) && k in ToMap(ps)
    ensures i < |ps| && ps[i].0 == k && ToMap(ps)[k] == ps[i].1
  {
    ToMapKeys(ps, k);
    i := FirstIndex(Keys(ps), k);
    ToMapAt(ps, i);
  }

  /** The dict built from well-formed pairs sends each key to a name that fits in a tag
      and that the dict maps to itself, if at all. */
  lemma ToMapFixed(ps: seq<(string, string)>, k: string)
    requires Distinct(Keys(ps)) && TagSafe(ps) && TargetsFixed(ps) && k in ToMap(ps)
    ensures NoLt(ToMap(ps)[k])
    ensures ToMap(ps)[k] in ToMap(ps) ==> ToMap(ps)[ToMap(ps)[k]] == ToMap(ps)[k]
  {
    var m := ToMap(ps);
    var i := ToMapIndex(ps, k);
    if m[k] in m {
      var j := ToMapIndex(ps, m[k]);
    }
  }

  // ---------------------------------------------------------------------------
  // Properties of the conversion

  /** The conversion replaces each complete tag whose name is a `TYPE_MAP` key in one
      pass, and copies everything else. */
  lemma ConvertIsRewrite(content: string)
    ensures ConvertContent(content) == Rewrite(TypeMap(), content)
  {
    TypeMapWellFormed();
    ReplaceTagsIsRewrite(content, TYPE_MAP);
  }

  /** A tag at the front becomes the tag of the mapped type name when its name is a key,
      and is kept otherwise; the rest of the text is converted on its own. */
  lemma ConvertTag(k: string, x: string)
    requires NoLt(k)
    ensures ConvertContent(Tag(k) + x) ==
              (if k in TypeMap() then Tag(TypeMap()[k]) else Tag(k)) + ConvertContent(x)
  {
    ConvertIsRewrite(Tag(k) + x);
    ConvertIsRewrite(x);
    RewriteTag(TypeMap(), k, x);
  }

  /** Each listed type name is rewritten to its BigQuery name. */
  lemma ConvertListedTag(i: nat, x: string)
    requires i < |TYPE_MAP|
    ensures ConvertContent(Tag(TYPE_MAP[i].0) + x) == Tag(TYPE_MAP[i].1) + ConvertContent(x)
  {
    TypeMapWellFormed();
    ToMapAt(TYPE_MAP, i);
    ToMapKeys(TYPE_MAP, TYPE_MAP[i].0);
    ConvertTag(TYPE_MAP[i].0, x);
  }

  /** A tag whose name is not a `TYPE_MAP` key is left alone. */
  lemma ConvertUnlistedTag(k: string, x: string)
    requires NoLt(k) && k !in Keys(TYPE_MAP)
    ensures ConvertContent(Tag(k) + x) == Tag(k) + ConvertContent(x)
  {
    ToMapKeys(TYPE_MAP, k);
    ConvertTag(k, x);
  }

  /** Matching is case-sensitive: a lower-case type name is left alone. */
  lemma ConvertLowerCaseKept(x: string)
    ensures ConvertContent(Tag("int") + x) == Tag("int") + ConvertContent(x)
  {
    assert "int" !in Keys(TYPE_MAP);
    ConvertUnlistedTag("int", x);
  }

  /** Converting converted text changes nothing. */
  lemma ConvertIdempotent(content: string)
    ensures ConvertContent(ConvertContent(content)) == ConvertContent(content)
  {
    var m := TypeMap();
    TypeMapWellFormed();
    ConvertIsRewrite(content);
    ConvertIsRewrite(ConvertContent(content));
    forall k | k in m ensures NoLt(m[k]) && (m[k] in m ==> m[m[k]] == m[k]) {
      ToMapFixed(TYPE_MAP, k);
    }
    RewriteCompose(m, m, content);
    ComposeFixed(m);
  }

  /** Every BigQuery type the conversion produces has a full default triple. */
  lemma TypeMapTargetsHaveDefaults(k: string)
    requires k in Keys(TYPE_MAP)
    ensures k in TypeMap()
    ensures TypeMap()[k] in DEFAULTS
    ensures DEFAULTS[TypeMap()[k]] != NoDefaults
  {
    ToMapKeys(TYPE_MAP, k);
    TypeMapWellFormed();
    var i := ToMapIndex(TYPE_MAP, k);
    TypeMapTargets();
    BigQueryTypesHaveDefaults();
    DefaultsNonEmpty(TypeMap()[k]);
  }

  /** A file name with a ".dez" extension and no other dot gets "_bq" before it. */
  lemma {:induction false} OutPathOfDezFile(stem: string)
    requires '.' !in stem
    ensures OutPath(stem + ".dez") == stem + "_bq.dez"
    decreases |stem|
  {
    var p := stem + ".dez";
    if |stem| == 0 {
      assert p == ".dez" + "";
    } else {
      assert p[0] == stem[0] && stem[0] != '.';
      assert !StartsWith(p, ".dez");
      assert p[1..] == stem[1..] + ".dez";
      OutPathOfDezFile(stem[1..]);
      assert stem == [stem[0]] + stem[1..];
    }
  }
}
