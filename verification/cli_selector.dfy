/** utils/cli_selector.py: entities grouped by the diagrams that show them, their
    global numbering, and the parse of a comma-separated selection of those numbers.
    The typed answer to the prompt is a parameter. */
module CliSelector {
  import opened Wrappers
  import opened Text
  import opened Seqs
  import opened Dict
  import opened StringOrder
  import opened Dez
  import DezParser

  // ---------------------------------------------------------------------------
  // build_diagram_mapping
  // ---------------------------------------------------------------------------

  /** `id2name`: the entities whose ID and NAME are both non-empty. */
  function EntityNames(doc: Doc): seq<(string, string)> {
    DezParser.IdToName(doc.ents)
  }

  /** The (ID, NAME) pairs of the diagrams whose ID and NAME are both non-empty, in
      document order. */
  function DiagramPairs(ds: seq<Diagram>): (ps: seq<(string, string)>)
    ensures forall i :: 0 <= i < |ps| ==> ps[i].0 != "" && ps[i].1 != ""
    decreases |ds|
  {
    if |ds| == 0 then []
    else
      var d := ds[|ds| - 1];
      DiagramPairs(ds[..|ds| - 1]) +
        (if Truthy(d.id) && Truthy(d.name) then [(d.id.value, d.name.value)] else [])
  }

  /** `diag_id2name`. */
  function DiagramNames(ds: seq<Diagram>): seq<(string, string)> {
    FromPairs(DiagramPairs(ds))
  }

  /** A diagram with a non-empty ID and NAME is known under its ID. */
  lemma {:induction false} DiagramKnown(ds: seq<Diagram>, i: nat)
    requires i < |ds| && Truthy(ds[i].id) && Truthy(ds[i].name)
    ensures ds[i].id.value in Keys(DiagramNames(ds))
    decreases |ds|
  {
    var prefix := ds[..|ds| - 1];
    var d := ds[|ds| - 1];
    if i == |ds| - 1 {
      assert DiagramPairs(ds)[|DiagramPairs(ds)| - 1] == (d.id.value, d.name.value);
      assert Keys(DiagramPairs(ds))[|DiagramPairs(ds)| - 1] == d.id.value;
    } else {
      assert prefix[i] == ds[i];
      DiagramKnown(prefix, i);
      var p := DiagramPairs(prefix);
      assert ds[i].id.value in Keys(FromPairs(p));
      assert ds[i].id.value in Keys(p);
      var j :| 0 <= j < |p| && Keys(p)[j] == ds[i].id.value;
      assert DiagramPairs(ds)[j] == p[j];
      assert Keys(DiagramPairs(ds))[j] == ds[i].id.value;
    }
  }

  /** The IDs of the ENTC elements placed on diagram `did` that name a known entity,
      in document order. */
  function PlacedIds(cs: seq<EntityControl>, did: string, id2name: seq<(string, string)>): (ids: seq<string>)
    ensures forall i :: 0 <= i < |ids| ==> ids[i] in Keys(id2name)
    decreases |cs|
  {
    if |cs| == 0 then []
    else
      var c := cs[|cs| - 1];
      PlacedIds(cs[..|cs| - 1], did, id2name) +
        (if c.diagramId == Some(did) && c.id.Some? && c.id.value in Keys(id2name) then [c.id.value] else [])
  }

  /** The ENTC at `i` places entity `x` on diagram `did`. */
  predicate Places(cs: seq<EntityControl>, i: int, did: string, x: string) {
    0 <= i < |cs| && cs[i].diagramId == Some(did) && cs[i].id == Some(x)
  }

  /** `diag2ids[did]` holds an ID exactly when some ENTC places that known entity on
      the diagram. */
  lemma {:induction false} PlacedIdsSpec(cs: seq<EntityControl>, did: string, id2name: seq<(string, string)>, x: string)
    ensures x in PlacedIds(cs, did, id2name) <==>
              x in Keys(id2name) && exists i :: Places(cs, i, did, x)
    decreases |cs|
  {
    if |cs| > 0 {
      var prefix := cs[..|cs| - 1];
      var c := cs[|cs| - 1];
      var here := c.diagramId == Some(did) && c.id == Some(x) && x in Keys(id2name);
      assert x in PlacedIds(cs, did, id2name) <==> x in PlacedIds(prefix, did, id2name) || here;
      PlacedIdsSpec(prefix, did, id2name, x);
      if exists i :: Places(prefix, i, did, x) {
        var i :| Places(prefix, i, did, x);
        assert Places(cs, i, did, x);
      }
      if here {
        assert Places(cs, |cs| - 1, did, x);
      }
      if exists i :: Places(cs, i, did, x) {
        var i :| Places(cs, i, did, x);
        if i < |cs| - 1 {
          assert Places(prefix, i, did, x);
        }
      }
    }
  }

  /** The names of the given entity IDs. */
  function NamesOf(ids: seq<string>, id2name: seq<(string, string)>): (names: seq<string>)
    ensures |names| == |ids|
    decreases |ids|
  {
    if |ids| == 0 then []
    else NamesOf(ids[..|ids| - 1], id2name) + [Get(id2name, ids[|ids| - 1]).GetOr("")]
  }

  lemma {:induction false} NamesOfAt(ids: seq<string>, id2name: seq<(string, string)>, i: nat)
    requires i < |ids|
    ensures NamesOf(ids, id2name)[i] == Get(id2name, ids[i]).GetOr("")
    decreases |ids|
  {
    if i < |ids| - 1 {
      assert ids[..|ids| - 1][i] == ids[i];
      NamesOfAt(ids[..|ids| - 1], id2name, i);
    }
  }

  /** The entity IDs of one diagram, as the set `diag2ids[did]`. */
  function DiagramIds(cs: seq<EntityControl>, did: string, id2name: seq<(string, string)>): seq<string> {
    Dedup(PlacedIds(cs, did, id2name))
  }

  /** `sorted(id2name[eid] for eid in diag2ids[did])`. */
  function DiagramList(cs: seq<EntityControl>, did: string, id2name: seq<(string, string)>): seq<string> {
    Sort(NamesOf(DiagramIds(cs, did, id2name), id2name))
  }

  /** One diagram's list is sorted and has one name per distinct placed entity. */
  lemma DiagramListShape(cs: seq<EntityControl>, did: string, id2name: seq<(string, string)>)
    ensures Sorted(DiagramList(cs, did, id2name))
    ensures |DiagramList(cs, did, id2name)| == |DiagramIds(cs, did, id2name)|
  {
    var names := NamesOf(DiagramIds(cs, did, id2name), id2name);
    assert |multiset(DiagramList(cs, did, id2name))| == |multiset(names)|;
  }

  /** The list holds a name exactly when a known entity of that name is placed on the
      diagram. */
  lemma DiagramListMembers(cs: seq<EntityControl>, did: string, id2name: seq<(string, string)>, n: string)
    ensures n in DiagramList(cs, did, id2name) <==>
              exists x :: x in PlacedIds(cs, did, id2name) && Get(id2name, x) == Some(n)
  {
    var ids := DiagramIds(cs, did, id2name);
    SortMembers(NamesOf(ids, id2name), n);
    if n in NamesOf(ids, id2name) {
      NameFromId(ids, id2name, n);
    }
    if exists x :: x in PlacedIds(cs, did, id2name) && Get(id2name, x) == Some(n) {
      var x :| x in PlacedIds(cs, did, id2name) && Get(id2name, x) == Some(n);
      NameOfId(ids, id2name, x);
    }
  }

  lemma NameOfId(ids: seq<string>, id2name: seq<(string, string)>, x: string)
    requires x in ids
    ensures Get(id2name, x).GetOr("") in NamesOf(ids, id2name)
  {
    var i :| 0 <= i < |ids| && ids[i] == x;
    NamesOfAt(ids, id2name, i);
  }

  /** Sorting keeps the elements. */
  lemma SortMembers(s: seq<string>, x: string)
    ensures x in Sort(s) <==> x in s
  {
    assert x in Sort(s) <==> x in multiset(Sort(s));
    assert x in s <==> x in multiset(s);
  }

  lemma NameFromId(ids: seq<string>, id2name: seq<(string, string)>, n: string)
    requires forall i :: 0 <= i < |ids| ==> ids[i] in Keys(id2name)
    requires n in NamesOf(ids, id2name)
    ensures exists x :: x in ids && Get(id2name, x) == Some(n)
  {
    var names := NamesOf(ids, id2name);
    var i :| 0 <= i < |names| && names[i] == n;
    NamesOfAt(ids, id2name, i);
    assert ids[i] in ids;
  }

  /** The (diagram name, list) pairs of `diag2names`, one per key of `diag_id2name`, in
      that dict's order. */
  function ListPairs(dids: seq<string>, dnames: seq<(string, string)>, cs: seq<EntityControl>,
                     id2name: seq<(string, string)>): (ps: seq<(string, seq<string>)>)
    ensures |ps| == |dids|
    decreases |dids|
  {
    if |dids| == 0 then []
    else
      var did := dids[|dids| - 1];
      ListPairs(dids[..|dids| - 1], dnames, cs, id2name) +
        [(Get(dnames, did).GetOr(""), DiagramList(cs, did, id2name))]
  }

  lemma {:induction false} ListPairsAt(dids: seq<string>, dnames: seq<(string, string)>,
                                       cs: seq<EntityControl>, id2name: seq<(string, string)>, i: nat)
    requires i < |dids|
    ensures ListPairs(dids, dnames, cs, id2name)[i] ==
              (Get(dnames, dids[i]).GetOr(""), DiagramList(cs, dids[i], id2name))
    decreases |dids|
  {
    if i < |dids| - 1 {
      assert dids[..|dids| - 1][i] == dids[i];
      ListPairsAt(dids[..|dids| - 1], dnames, cs, id2name, i);
    }
  }

  /** `diag2names`: keyed by diagram NAME, so of two diagrams with the same name the one
      later in `diag_id2name` wins. */
  function DiagramLists(doc: Doc): seq<(string, seq<string>)> {
    var dnames := DiagramNames(doc.diagrams);
    FromPairs(ListPairs(Keys(dnames), dnames, doc.entityControls, EntityNames(doc)))
  }

  /** `build_diagram_mapping`. */
  function BuildDiagramMapping(doc: Doc): (seq<(string, string)>, seq<(string, seq<string>)>) {
    (EntityNames(doc), DiagramLists(doc))
  }

  /** Every known diagram appears in `diag2names` under its name, even with an empty
      list; in particular so does every diagram with a non-empty ID and NAME that is the
      last diagram with its ID. */
  lemma DiagramListed(doc: Doc, did: string)
    requires did in Keys(DiagramNames(doc.diagrams))
    ensures Get(DiagramNames(doc.diagrams), did).Some?
    ensures Get(DiagramNames(doc.diagrams), did).value in Keys(DiagramLists(doc))
  {
    var dnames := DiagramNames(doc.diagrams);
    var dids := Keys(dnames);
    var ps := ListPairs(dids, dnames, doc.entityControls, EntityNames(doc));
    var i :| 0 <= i < |dids| && dids[i] == did;
    ListPairsAt(dids, dnames, doc.entityControls, EntityNames(doc), i);
    FromPairsHasKey(ps, i);
  }

  // ---------------------------------------------------------------------------
  // interactive_choice
  // ---------------------------------------------------------------------------

  /** The names in the order they are numbered: diagrams in sorted-name order, each
      diagram's list in its own order. */
  function Listing(d2n: seq<(string, seq<string>)>): seq<string> {
    ListsOf(Sort(Keys(d2n)), d2n)
  }

  function ListsOf(ks: seq<string>, d2n: seq<(string, seq<string>)>): seq<string>
    decreases |ks|
  {
    if |ks| == 0 then [] else ListsOf(ks[..|ks| - 1], d2n) + Get(d2n, ks[|ks| - 1]).GetOr([])
  }

  /** `index_map[num]`, if `num` is a key. */
  function IndexMap(d2n: seq<(string, seq<string>)>, num: int): Option<string> {
    var l := Listing(d2n);
    if 1 <= num <= |l| then Some(l[num - 1]) else None
  }

  /** Numbering is consecutive: for the diagram names in order `ks` (sorted, for
      `Listing`), the `j`-th name of the `p`-th diagram sits right after all names of
      the diagrams before it, so it gets their count plus `j + 1` as its number. */
  lemma {:induction false} NumberingConsecutive(ks: seq<string>, d2n: seq<(string, seq<string>)>, p: nat, j: nat)
    requires p < |ks| && j < |Get(d2n, ks[p]).GetOr([])|
    ensures |ListsOf(ks[..p], d2n)| + j < |ListsOf(ks, d2n)|
    ensures ListsOf(ks, d2n)[|ListsOf(ks[..p], d2n)| + j] == Get(d2n, ks[p]).GetOr([])[j]
    decreases |ks|
  {
    var init := ks[..|ks| - 1];
    if p == |ks| - 1 {
      assert ks[..p] == init;
    } else {
      assert init[p] == ks[p];
      assert init[..p] == ks[..p];
      NumberingConsecutive(init, d2n, p, j);
    }
  }

  /** The 0-based position a token names among `count` numbered items: stripped it is
      all digits and its value lies in 1..count. Both selection prompts read tokens so. */
  function TokenIndex(part: string, count: nat): (k: Option<nat>)
    ensures k.Some? ==> k.value < count
  {
    var p := Strip(part);
    if IsDigits(p) && 1 <= DigitsValue(p) <= count then Some(DigitsValue(p) - 1) else None
  }

  /** The name token `part` picks. */
  function Pick(l: seq<string>, part: string): Option<string> {
    var k := TokenIndex(part, |l|);
    if k.Some? then Some(l[k.value]) else None
  }

  predicate Picks(l: seq<string>, part: string, n: string) {
    Pick(l, part) == Some(n)
  }

  /** The pick of every token. */
  function PickAll(parts: seq<string>, l: seq<string>): (os: seq<Option<string>>)
    ensures |os| == |parts|
    ensures forall i :: 0 <= i < |parts| ==> os[i] == Pick(l, parts[i])
  {
    seq(|parts|, i requires 0 <= i < |parts| => Pick(l, parts[i]))
  }

  /** The names the tokens pick, in token order and with repeats. */
  function Picked(parts: seq<string>, l: seq<string>): seq<string> {
    Somes(PickAll(parts, l))
  }

  lemma PickedSpec(parts: seq<string>, l: seq<string>, n: string)
    ensures n in Picked(parts, l) <==> exists i :: 0 <= i < |parts| && Picks(l, parts[i], n)
  {
    var os := PickAll(parts, l);
    SomesMembers(os, n);
    if Some(n) in os {
      var i :| 0 <= i < |os| && os[i] == Some(n);
      assert Picks(l, parts[i], n);
    }
    if exists i :: 0 <= i < |parts| && Picks(l, parts[i], n) {
      var i :| 0 <= i < |parts| && Picks(l, parts[i], n);
      assert os[i] == Some(n);
    }
  }

  /** The value `interactive_choice` returns for the typed `answer`. */
  function Choice(d2n: seq<(string, seq<string>)>, answer: string): seq<string> {
    var choice := Strip(answer);
    if choice == "" then [] else Sort(Dedup(Picked(Split(choice, ','), Listing(d2n))))
  }

  /** A sequence with the same elements as a duplicate-free one is duplicate-free. */
  lemma DistinctPermutation<T>(a: seq<T>, b: seq<T>)
    requires multiset(a) == multiset(b) && Distinct(b)
    ensures Distinct(a)
  {
    forall i, j | 0 <= i < j < |a| ensures a[i] != a[j] {
      if a[i] == a[j] {
        CountTwo(a, i, j);
        DistinctCount(b, a[i]);
      }
    }
  }

  lemma CountTwo<T>(a: seq<T>, i: nat, j: nat)
    requires i < j < |a| && a[i] == a[j]
    ensures multiset(a)[a[i]] >= 2
  {
    assert a == a[..j] + [a[j]] + a[j + 1..];
    assert a[..j][i] == a[i];
    assert multiset(a[..j])[a[i]] >= 1;
  }

  lemma {:induction false} DistinctCount<T>(s: seq<T>, x: T)
    requires Distinct(s)
    ensures multiset(s)[x] <= 1
    decreases |s|
  {
    if |s| > 0 {
      var init := s[..|s| - 1];
      assert s == init + [s[|s| - 1]];
      DistinctSnoc(init, s[|s| - 1]);
      DistinctCount(init, x);
      assert multiset(init)[s[|s| - 1]] == 0;
    }
  }

  /** A blank answer selects nothing, which the caller reads as "all". */
  lemma ChoiceBlank(d2n: seq<(string, seq<string>)>, answer: string)
    requires Strip(answer) == ""
    ensures Choice(d2n, answer) == []
  {
  }

  /** The comma-separated tokens of a non-blank answer. */
  function Tokens(answer: string): seq<string> {
    Split(Strip(answer), ',')
  }

  /** Some token of the answer picks `n`. */
  predicate Chosen(d2n: seq<(string, seq<string>)>, answer: string, n: string) {
    exists i :: 0 <= i < |Tokens(answer)| && Picks(Listing(d2n), Tokens(answer)[i], n)
  }

  /** The selection is sorted and duplicate-free. */
  lemma ChoiceOrdered(d2n: seq<(string, seq<string>)>, answer: string)
    ensures Sorted(Choice(d2n, answer)) && Distinct(Choice(d2n, answer))
  {
    if Strip(answer) != "" {
      var d := Dedup(Picked(Tokens(answer), Listing(d2n)));
      DistinctPermutation(Sort(d), d);
    }
  }

  /** The selection holds a name exactly when the answer is not blank and one of its
      comma-separated tokens picks it. */
  lemma ChoiceMembers(d2n: seq<(string, seq<string>)>, answer: string, n: string)
    ensures n in Choice(d2n, answer) <==> Strip(answer) != "" && Chosen(d2n, answer, n)
  {
    if Strip(answer) != "" {
      var p := Picked(Tokens(answer), Listing(d2n));
      var d := Dedup(p);
      PickedSpec(Tokens(answer), Listing(d2n), n);
      SortMembers(d, n);
      assert n in d <==> n in p;
    }
  }

  /** When no token picks anything the selection is empty, as for a blank answer. */
  lemma ChoiceAllInvalid(d2n: seq<(string, seq<string>)>, answer: string)
    requires forall n :: !Chosen(d2n, answer, n)
    ensures Choice(d2n, answer) == []
  {
    var r := Choice(d2n, answer);
    if |r| > 0 {
      ChoiceMembers(d2n, answer, r[0]);
    }
  }
}
