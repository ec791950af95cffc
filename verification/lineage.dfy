/** The entity-level lineage of utils/dez_parser.py: the `sources` list built from the
    property bag of an ENT by matching each property name against
    `(\d+)_(source_database|source_table|source_column)_(\d+)` at its start, grouping the
    values by the LEADING number and ordering the groups by that number's value. */
module Lineage {
  import opened Wrappers
  import opened Text
  import opened Seqs
  import opened Dict
  import opened Dez

  datatype Kind = Database | Table | Column

  /** The text between the leading number and the trailing number. */
  function Marker(kind: Kind): string {
    match kind
    case Database => "source_database_"
    case Table => "source_table_"
    case Column => "source_column_"
  }

  /** The end of the run of ASCII digits starting at `i`. */
  function DigitRunEnd(s: string, i: nat): (j: nat)
    requires i <= |s|
    ensures i <= j <= |s|
    ensures forall k :: i <= k < j ==> IsDigit(s[k])
    ensures j < |s| ==> !IsDigit(s[j])
    decreases |s| - i
  {
    if i < |s| && IsDigit(s[i]) then DigitRunEnd(s, i + 1) else i
  }

  /** Property name `k` starts with the digits `idx`, an underscore, the marker of
      `kind` and a digit: what a match of the pattern whose first group is `idx` looks
      like. */
  predicate KeyMatches(k: string, idx: string, kind: Kind) {
    var p := |idx| + 1;
    && IsDigits(idx) && StartsWith(k, idx) && |idx| < |k| && k[|idx|] == '_'
    && StartsWith(k[p..], Marker(kind)) && p + |Marker(kind)| < |k| && IsDigit(k[p + |Marker(kind)|])
  }

  /** The kind whose marker, followed by a digit, starts at `p`; the alternatives are
      tried in the order the pattern lists them. */
  function MarkerAt(k: string, p: nat): Option<Kind>
    requires p <= |k|
  {
    if StartsWith(k[p..], Marker(Database)) && p + 16 < |k| && IsDigit(k[p + 16]) then Some(Database)
    else if StartsWith(k[p..], Marker(Table)) && p + 13 < |k| && IsDigit(k[p + 13]) then Some(Table)
    else if StartsWith(k[p..], Marker(Column)) && p + 14 < |k| && IsDigit(k[p + 14]) then Some(Column)
    else None
  }

  /** `src_re.match(k)`: the first group and the kind, or `None` when the pattern does
      not match at the start of `k`. The greedy `\d+` can only stop at the end of the
      digit run, since an underscore must follow it. */
  function SourceKey(k: string): Option<(string, Kind)> {
    var d := DigitRunEnd(k, 0);
    if d == 0 || d == |k| || k[d] != '_' then None
    else
      match MarkerAt(k, d + 1)
      case None => None
      case Some(kind) => Some((k[..d], kind))
  }

  /** Every match reported is a match. */
  lemma SourceKeySound(k: string)
    requires SourceKey(k).Some?
    ensures KeyMatches(k, SourceKey(k).value.0, SourceKey(k).value.1)
  {
    var d := DigitRunEnd(k, 0);
    assert forall i :: 0 <= i < d ==> k[..d][i] == k[i];
  }

  /** Every match is found, and it is the only one: a name has at most one prefix and
      one kind. */
  lemma SourceKeyComplete(k: string, idx: string, kind: Kind)
    requires KeyMatches(k, idx, kind)
    ensures SourceKey(k) == Some((idx, kind))
  {
    DigitRunEndAtIndex(k, idx);
    MarkerAtKind(k, |idx| + 1, kind);
  }

  lemma DigitRunEndAtIndex(k: string, idx: string)
    requires IsDigits(idx) && StartsWith(k, idx) && |idx| < |k| && k[|idx|] == '_'
    ensures DigitRunEnd(k, 0) == |idx|
  {
    assert forall i :: 0 <= i < |idx| ==> k[i] == k[..|idx|][i];
  }

  lemma MarkerAtKind(k: string, p: nat, kind: Kind)
    requires p + |Marker(kind)| < |k| && IsDigit(k[p + |Marker(kind)|])
    requires StartsWith(k[p..], Marker(kind))
    ensures MarkerAt(k, p) == Some(kind)
  {
    assert k[p + 7] == k[p..][..|Marker(kind)|][7] == Marker(kind)[7];
  }

  /** The prefixes of the matching property names, in dictionary order, repeats kept. */
  function Indices(es: seq<(string, string)>): seq<string>
    decreases |es|
  {
    if |es| == 0 then []
    else
      var prefix := Indices(es[..|es| - 1]);
      match SourceKey(es[|es| - 1].0)
      case None => prefix
      case Some((idx, _)) => prefix + [idx]
  }

  /** The value of the last property whose name matches with this prefix and kind. */
  function LastFor(es: seq<(string, string)>, idx: string, kind: Kind): Option<string>
    decreases |es|
  {
    if |es| == 0 then None
    else if SourceKey(es[|es| - 1].0) == Some((idx, kind)) then Some(es[|es| - 1].1)
    else LastFor(es[..|es| - 1], idx, kind)
  }

  lemma {:induction false} LastForIndexed(es: seq<(string, string)>, idx: string, kind: Kind)
    requires LastFor(es, idx, kind).Some?
    ensures idx in Indices(es)
    decreases |es|
  {
    if SourceKey(es[|es| - 1].0) != Some((idx, kind)) {
      LastForIndexed(es[..|es| - 1], idx, kind);
    }
  }

  /** One group of `temp`: the kinds seen so far for a prefix. */
  datatype Partial = Partial(database: Option<string>, table: Option<string>, column: Option<string>)

  const NoneSeen := Partial(None, None, None)

  /** `grp[kind] = v`. */
  function With(p: Partial, kind: Kind, v: string): Partial {
    match kind
    case Database => p.(database := Some(v))
    case Table => p.(table := Some(v))
    case Column => p.(column := Some(v))
  }

  /** The group a prefix's properties add up to. */
  function GroupOf(es: seq<(string, string)>, idx: string): Partial {
    Partial(LastFor(es, idx, Database), LastFor(es, idx, Table), LastFor(es, idx, Column))
  }

  /** The loop filling `temp`: one group per distinct prefix, in the order the prefixes
      first appear. */
  function Group(es: seq<(string, string)>): (g: seq<(string, Partial)>)
    ensures Distinct(Keys(g))
    ensures Keys(g) == Dedup(Indices(es))
    decreases |es|
  {
    if |es| == 0 then []
    else
      var g := Group(es[..|es| - 1]);
      match SourceKey(es[|es| - 1].0)
      case None =>
        assert Indices(es) == Indices(es[..|es| - 1]);
        g
      case Some((idx, kind)) =>
        assert Indices(es) == Indices(es[..|es| - 1]) + [idx];
        assert Indices(es)[..|Indices(es)| - 1] == Indices(es[..|es| - 1]);
        Put(g, idx, With(Get(g, idx).GetOr(NoneSeen), kind, es[|es| - 1].1))
  }

  /** Each group holds, for each kind, the value of the last property of that prefix
      and kind. */
  lemma {:induction false} GroupValues(es: seq<(string, string)>, idx: string)
    requires idx in Indices(es)
    ensures Get(Group(es), idx) == Some(GroupOf(es, idx))
    decreases |es|
  {
    var prefix := es[..|es| - 1];
    var g := Group(prefix);
    match SourceKey(es[|es| - 1].0)
    case None =>
      GroupOfSkip(es);
      GroupValues(prefix, idx);
    case Some((idx', kind)) =>
      GroupOfStep(es, idx', kind);
      if idx' != idx {
        GroupValues(prefix, idx);
      } else if idx in Keys(g) {
        GroupValues(prefix, idx);
      } else {
        FreshPrefix(prefix, g, idx);
      }
  }

  /** A property that does not match leaves every group as it was. */
  lemma GroupOfSkip(es: seq<(string, string)>)
    requires |es| > 0 && SourceKey(es[|es| - 1].0).None?
    ensures Indices(es) == Indices(es[..|es| - 1])
    ensures forall idx :: GroupOf(es, idx) == GroupOf(es[..|es| - 1], idx)
  {
  }

  /** A matching property sets one kind of one group. */
  lemma GroupOfStep(es: seq<(string, string)>, idx: string, kind: Kind)
    requires |es| > 0 && SourceKey(es[|es| - 1].0) == Some((idx, kind))
    ensures GroupOf(es, idx) == With(GroupOf(es[..|es| - 1], idx), kind, es[|es| - 1].1)
    ensures forall idx' :: idx' != idx ==> GroupOf(es, idx') == GroupOf(es[..|es| - 1], idx')
  {
  }

  /** A prefix not yet grouped has seen no property. */
  lemma FreshPrefix(es: seq<(string, string)>, g: seq<(string, Partial)>, idx: string)
    requires Keys(g) == Dedup(Indices(es))
    requires idx !in Keys(g)
    ensures GroupOf(es, idx) == NoneSeen
  {
    forall kind ensures LastFor(es, idx, kind).Some? ==> idx in Dedup(Indices(es)) {
      if LastFor(es, idx, kind).Some? {
        LastForGrouped(es, idx, kind);
      }
    }
  }

  lemma LastForGrouped(es: seq<(string, string)>, idx: string, kind: Kind)
    requires LastFor(es, idx, kind).Some?
    ensures idx in Dedup(Indices(es))
  {
    LastForIndexed(es, idx, kind);
    var i :| 0 <= i < |Indices(es)| && Indices(es)[i] == idx;
  }

  /** `int(idx)`; every prefix a match yields is made of digits. */
  function IndexValue(idx: string): nat {
    if forall i :: 0 <= i < |idx| ==> IsDigit(idx[i]) then DigitsValue(idx) else 0
  }

  predicate SortedByIndex<T>(s: seq<(string, T)>) {
    forall i, j :: 0 <= i < j < |s| ==> IndexValue(s[i].0) <= IndexValue(s[j].0)
  }

  /** The elements whose prefix has the value `n`, in order. */
  function WithValue<T>(s: seq<(string, T)>, n: nat): seq<(string, T)>
    decreases |s|
  {
    if |s| == 0 then []
    else WithValue(s[..|s| - 1], n) + (if IndexValue(s[|s| - 1].0) == n then [s[|s| - 1]] else [])
  }

  /** Inserts `x` after every element whose value does not exceed its own. */
  function InsertStable<T>(s: seq<(string, T)>, x: (string, T)): (r: seq<(string, T)>)
    ensures multiset(r) == multiset(s) + multiset{x}
    decreases |s|
  {
    if |s| == 0 || IndexValue(s[|s| - 1].0) <= IndexValue(x.0) then s + [x]
    else
      assert s == s[..|s| - 1] + [s[|s| - 1]];
      InsertStable(s[..|s| - 1], x) + [s[|s| - 1]]
  }

  lemma {:induction false} InsertStableSorted<T>(s: seq<(string, T)>, x: (string, T))
    requires SortedByIndex(s)
    ensures SortedByIndex(InsertStable(s, x))
    decreases |s|
  {
    if |s| > 0 && IndexValue(s[|s| - 1].0) > IndexValue(x.0) {
      var init := s[..|s| - 1];
      var last := s[|s| - 1];
      InsertStableSorted(init, x);
      InsertStableBounded(init, x, IndexValue(last.0));
      assert InsertStable(s, x) == InsertStable(init, x) + [last];
    }
  }

  /** Inserting keeps an upper bound on the values that both `s` and `x` respect. */
  lemma {:induction false} InsertStableBounded<T>(s: seq<(string, T)>, x: (string, T), b: nat)
    requires forall i :: 0 <= i < |s| ==> IndexValue(s[i].0) <= b
    requires IndexValue(x.0) <= b
    ensures forall i :: 0 <= i < |InsertStable(s, x)| ==> IndexValue(InsertStable(s, x)[i].0) <= b
    decreases |s|
  {
    if |s| > 0 && IndexValue(s[|s| - 1].0) > IndexValue(x.0) {
      var init := s[..|s| - 1];
      InsertStableBounded(init, x, b);
      assert InsertStable(s, x) == InsertStable(init, x) + [s[|s| - 1]];
    }
  }

  /** Among the elements of one value, `x` lands after those already there. */
  lemma {:induction false} InsertStableWithValue<T>(s: seq<(string, T)>, x: (string, T), n: nat)
    ensures WithValue(InsertStable(s, x), n) == WithValue(s, n) + (if IndexValue(x.0) == n then [x] else [])
    decreases |s|
  {
    if |s| == 0 || IndexValue(s[|s| - 1].0) <= IndexValue(x.0) {
      WithValueSnoc(s, x, n);
    } else {
      var init := s[..|s| - 1];
      var last := s[|s| - 1];
      var t := InsertStable(init, x);
      var a := WithValue(init, n);
      var xs := if IndexValue(x.0) == n then [x] else [];
      var ls := if IndexValue(last.0) == n then [last] else [];
      assert s == init + [last];
      assert a + xs + ls == a + ls + xs by {
        if xs == [] {
          assert a + xs == a;
        } else {
          assert ls == [];
          assert a + ls == a;
        }
      }
      calc {
        WithValue(InsertStable(s, x), n);
        WithValue(t + [last], n);
        { WithValueSnoc(t, last, n); }
        WithValue(t, n) + ls;
        { InsertStableWithValue(init, x, n); }
        a + xs + ls;
        a + ls + xs;
        { WithValueSnoc(init, last, n); }
        WithValue(s, n) + xs;
      }
    }
  }

  lemma WithValueSnoc<T>(s: seq<(string, T)>, y: (string, T), n: nat)
    ensures WithValue(s + [y], n) == WithValue(s, n) + (if IndexValue(y.0) == n then [y] else [])
  {
    assert (s + [y])[..|s|] == s;
  }

  lemma {:induction false} InsertStableKeys<T>(s: seq<(string, T)>, x: (string, T))
    ensures forall k :: k in Keys(InsertStable(s, x)) <==> k in Keys(s) || k == x.0
    ensures Distinct(Keys(s)) && x.0 !in Keys(s) ==> Distinct(Keys(InsertStable(s, x)))
    decreases |s|
  {
    if |s| == 0 || IndexValue(s[|s| - 1].0) <= IndexValue(x.0) {
      assert Keys(InsertStable(s, x)) == Keys(s) + [x.0];
    } else {
      var init := s[..|s| - 1];
      var last := s[|s| - 1];
      var t := InsertStable(init, x);
      assert InsertStable(s, x) == t + [last];
      InsertStableKeys(init, x);
      assert Keys(t + [last]) == Keys(t) + [last.0];
      assert Keys(s) == Keys(init) + [last.0];
      DistinctSnoc(Keys(init), last.0);
      DistinctSnoc(Keys(t), last.0);
    }
  }

  /** `sorted(..., key=lambda x: int(x[0]))` by insertion, the last element first. */
  function SortByIndex<T>(s: seq<(string, T)>): (r: seq<(string, T)>)
    ensures multiset(r) == multiset(s)
    decreases |s|
  {
    if |s| == 0 then []
    else
      assert s == s[..|s| - 1] + [s[|s| - 1]];
      InsertStable(SortByIndex(s[..|s| - 1]), s[|s| - 1])
  }

  /** The result is ordered by prefix value and the sort is stable: the elements of
      each value keep their relative order. Together with the permutation property this
      pins the result down completely. */
  lemma {:induction false} SortByIndexStable<T>(s: seq<(string, T)>)
    ensures SortedByIndex(SortByIndex(s))
    ensures forall n :: WithValue(SortByIndex(s), n) == WithValue(s, n)
    decreases |s|
  {
    if |s| > 0 {
      var init := s[..|s| - 1];
      SortByIndexStable(init);
      InsertStableSorted(SortByIndex(init), s[|s| - 1]);
      forall n ensures WithValue(SortByIndex(s), n) == WithValue(s, n) {
        InsertStableWithValue(SortByIndex(init), s[|s| - 1], n);
      }
    }
  }

  /** Sorting keeps the set of keys and their distinctness. */
  lemma SortByIndexKeys<T>(s: seq<(string, T)>)
    ensures forall k :: k in Keys(SortByIndex(s)) <==> k in Keys(s)
    ensures Distinct(Keys(s)) ==> Distinct(Keys(SortByIndex(s)))
  {
    SortByIndexKeySet(s);
    if Distinct(Keys(s)) {
      SortByIndexDistinct(s);
    }
  }

  lemma SortByIndexKeySet<T>(s: seq<(string, T)>)
    ensures forall k :: k in Keys(SortByIndex(s)) <==> k in Keys(s)
  {
    KeysPermuted(SortByIndex(s), s);
  }

  lemma {:induction false} SortByIndexDistinct<T>(s: seq<(string, T)>)
    requires Distinct(Keys(s))
    ensures Distinct(Keys(SortByIndex(s)))
    decreases |s|
  {
    if |s| > 0 {
      var init := s[..|s| - 1];
      var last := s[|s| - 1];
      assert Keys(s) == Keys(init) + [last.0];
      DistinctSnoc(Keys(init), last.0);
      SortByIndexDistinct(init);
      SortByIndexKeySet(init);
      assert SortByIndex(s) == InsertStable(SortByIndex(init), last);
      InsertStableKeys(SortByIndex(init), last);
    }
  }

  /** One record of `sources`; a kind the group lacks is the empty string. */
  datatype Source = Source(database: string, table: string, column: string)

  function SourceOf(p: Partial): Source {
    Source(p.database.GetOr(""), p.table.GetOr(""), p.column.GetOr(""))
  }

  /** The groups of the property dictionary `d` as `sorted` leaves them, each with its
      prefix, and each turned into a record. */
  function IndexedSources(d: seq<(string, string)>): (r: seq<(string, Source)>)
    ensures Keys(r) == Keys(SortByIndex(Group(d)))
    ensures forall i :: 0 <= i < |r| ==> r[i].1 == SourceOf(SortByIndex(Group(d))[i].1)
  {
    Records(SortByIndex(Group(d)))
  }

  function Records(s: seq<(string, Partial)>): (r: seq<(string, Source)>)
    ensures Keys(r) == Keys(s)
    ensures forall i :: 0 <= i < |r| ==> r[i].1 == SourceOf(s[i].1)
  {
    seq(|s|, i requires 0 <= i < |s| => (s[i].0, SourceOf(s[i].1)))
  }

  /** One record per distinct matching prefix, ordered by the prefix's value, each
      holding the value of the last property of each kind with that prefix. */
  lemma IndexedSourcesSpec(d: seq<(string, string)>)
    ensures Distinct(Keys(IndexedSources(d)))
    ensures forall idx :: idx in Keys(IndexedSources(d)) <==> idx in Indices(d)
    ensures SortedByIndex(IndexedSources(d))
    ensures forall i :: 0 <= i < |IndexedSources(d)| ==>
              IndexedSources(d)[i].1 == SourceOf(GroupOf(d, IndexedSources(d)[i].0))
  {
    IndexedSourcesKeys(d);
    IndexedSourcesSorted(d);
    var s := SortByIndex(Group(d));
    forall i | 0 <= i < |s|
      ensures s[i].1 == GroupOf(d, s[i].0)
    {
      SortedEntryIsGroup(d, i);
    }
  }

  lemma IndexedSourcesKeys(d: seq<(string, string)>)
    ensures Distinct(Keys(IndexedSources(d)))
    ensures forall idx :: idx in Keys(IndexedSources(d)) <==> idx in Indices(d)
  {
    var g := Group(d);
    SortByIndexKeys(g);
    forall idx ensures idx in Keys(g) <==> idx in Indices(d) {
      if idx in Indices(d) {
        var i :| 0 <= i < |Indices(d)| && Indices(d)[i] == idx;
      }
    }
  }

  lemma IndexedSourcesSorted(d: seq<(string, string)>)
    ensures SortedByIndex(IndexedSources(d))
  {
    var s := SortByIndex(Group(d));
    var r := IndexedSources(d);
    SortByIndexStable(Group(d));
    assert forall i :: 0 <= i < |r| ==> r[i].0 == s[i].0;
  }

  lemma SortedEntryIsGroup(d: seq<(string, string)>, i: nat)
    requires i < |SortByIndex(Group(d))|
    ensures SortByIndex(Group(d))[i].1 == GroupOf(d, SortByIndex(Group(d))[i].0)
  {
    var g := Group(d);
    var s := SortByIndex(g);
    assert s[i] in multiset(g);
    var j :| 0 <= j < |g| && g[j] == s[i];
    assert Keys(g)[j] == s[i].0;
    FirstIndexDistinct(Keys(g), j);
    GroupValues(d, s[i].0);
  }

  /** The property dictionary of an ENT: `{u.tag[4:]: u.text or ""}`, later duplicates
      overwriting earlier ones. */
  function UdpDict(udps: seq<Udp>): seq<(string, string)> {
    FromPairs(seq(|udps|, i requires 0 <= i < |udps| => (UdpKey(udps[i]), UdpText(udps[i]))))
  }

  /** The `sources` list of an entity. */
  function EntitySources(udps: seq<Udp>): seq<Source> {
    Values(IndexedSources(UdpDict(udps)))
  }

  /** The entity has one source record per distinct matching prefix among its
      properties. */
  lemma EntitySourcesCount(udps: seq<Udp>)
    ensures |EntitySources(udps)| == |Dedup(Indices(UdpDict(udps)))|
  {
    var d := UdpDict(udps);
    IndexedSourcesKeys(d);
    DistinctKeysCount(IndexedSources(d), Indices(d));
  }

  /** A duplicate-free key list with exactly the elements of `xs` is as long as
      `Dedup(xs)`. */
  lemma DistinctKeysCount<T>(ix: seq<(string, T)>, xs: seq<string>)
    requires Distinct(Keys(ix))
    requires forall idx :: idx in Keys(ix) <==> idx in xs
    ensures |ix| == |Dedup(xs)|
  {
    var a := set i | 0 <= i < |ix| :: Keys(ix)[i];
    var b := set i | 0 <= i < |Dedup(xs)| :: Dedup(xs)[i];
    assert a == b by {
      forall x | x in a ensures x in b {
        assert x in Keys(ix);
        var i :| 0 <= i < |xs| && xs[i] == x;
        assert x in Dedup(xs);
        var j :| 0 <= j < |Dedup(xs)| && Dedup(xs)[j] == x;
      }
      forall x | x in b ensures x in a {
        assert x in Keys(ix);
      }
    }
    DistinctCard(Keys(ix));
    DistinctCard(Dedup(xs));
  }

  /** A duplicate-free sequence has as many distinct elements as positions. */
  lemma {:induction false} DistinctCard(s: seq<string>)
    requires Distinct(s)
    ensures |set i | 0 <= i < |s| :: s[i]| == |s|
    decreases |s|
  {
    if |s| > 0 {
      var init := s[..|s| - 1];
      DistinctCard(init);
      var a := set i | 0 <= i < |init| :: init[i];
      var b := set i | 0 <= i < |s| :: s[i];
      assert b == a + {s[|s| - 1]};
      assert s[|s| - 1] !in a;
    }
  }

  /** The name of a lineage property: `<lead>_source_<kind>_<trail>`. */
  function PropName(lead: string, kind: Kind, trail: string): string {
    lead + "_" + Marker(kind) + trail
  }

  /** Any digits before and any digit after the marker make a match grouped under the
      leading digits, whatever follows. */
  lemma PropNameKey(lead: string, kind: Kind, trail: string)
    requires IsDigits(lead)
    requires |trail| > 0 && IsDigit(trail[0])
    ensures SourceKey(PropName(lead, kind, trail)) == Some((lead, kind))
  {
    var k := PropName(lead, kind, trail);
    var p := |lead| + 1;
    assert k[..|lead|] == lead;
    assert k[|lead|] == '_';
    assert k[p..] == Marker(kind) + trail;
    assert k[p..][..|Marker(kind)|] == Marker(kind);
    assert k[p + |Marker(kind)|] == trail[0];
    SourceKeyComplete(k, lead, kind);
  }
}
