/** The pure rules inside inputs/DezignToMapping.py, the older stand-alone mapping
    script: how user-defined property (UDP) names are sliced, which relationships are
    indexed, the not-null and sourced/derived columns, per-attribute lineage, the default
    triple and the entity source list. The prompts, the workbook writes and the loop
    over versions and entities around them are not part of this model. */
module Script {
  import opened Wrappers
  import opened Text
  import opened Seqs
  import opened Dict
  import opened Defaults
  import opened Dez

  /** An optional child element: `find` gives none, or an element whose `.text` may be
      None. */
  datatype Node = Missing | Present(text: Option<string>)

  /** `str(x)` of a text value. */
  function PyStr(t: Option<string>): string {
    if t.Some? then t.value else "None"
  }

  // ---------------------------------------------------------------------------
  // UDP definitions (DATADICT/USERDEFINEDPROPERTIES/USERDEFPROP)
  // ---------------------------------------------------------------------------

  /** The four slices taken of a registered name. */
  datatype UdpName = UdpName(order: string, udpType: string, dbNumber: string, key: string)

  /** The slices as the script writes them: with `f` the first and `l` the last `_`,
      the DB number starts at `l - f + f + 1`, the type ends at `l - f + f`, the key
      starts at `f + 1` and the order ends at `f`. */
  function Decompose(name: string): UdpName {
    Slices(name, Find(name, '_'), RFind(name, '_'))
  }

  function Slices(name: string, f: int, l: int): UdpName {
    UdpName(
      order := PySlice(name, 0, f),
      udpType := PySlice(name, f + 1, l - f + f),
      dbNumber := PySlice(name, l - f + f + 1, |name|),
      key := PySlice(name, f + 1, |name|))
  }

  lemma SlicesWithin(name: string, f: int, l: int)
    requires 0 <= f <= l < |name|
    ensures Slices(name, f, l) ==
              UdpName(order := name[..f], udpType := if f < l then name[f + 1..l] else "",
                      dbNumber := name[l + 1..], key := name[f + 1..])
  {
    SliceWithin(name, 0, f);
    SliceFrom(name, f + 1);
    SliceFrom(name, l + 1);
    if f < l {
      SliceWithin(name, f + 1, l);
    }
  }

  lemma DecomposeWithUnderscore(name: string)
    requires '_' in name
    ensures var f, l, d := Find(name, '_'), RFind(name, '_'), Decompose(name);
            d.order == name[..f] && d.udpType == (if f < l then name[f + 1..l] else "") &&
            d.dbNumber == name[l + 1..] && d.key == name[f + 1..]
  {
    var f, l := Find(name, '_'), RFind(name, '_');
    FindBeforeRFind(name, '_');
    assert Decompose(name) == Slices(name, f, l);
    SlicesWithin(name, f, l);
  }

  /** Python slicing to the end is Dafny's drop. */
  lemma SliceFrom(s: string, a: int)
    requires 0 <= a <= |s|
    ensures PySlice(s, a, |s|) == s[a..]
  {
    assert s[a..|s|] == s[a..];
  }

  /** Python slicing within bounds is Dafny slicing. */
  lemma SliceWithin(s: string, a: int, b: int)
    requires 0 <= a <= b <= |s|
    ensures PySlice(s, a, b) == s[a..b]
  {
  }

  lemma FindBeforeRFind(s: string, c: char)
    requires c in s
    ensures 0 <= Find(s, c) <= RFind(s, c)
  {
    assert s[Find(s, c)] == c;
  }

  /** The pieces contain no further `_` where the script expects none, and glue back
      into the name: `order_key`, and `order_type_dbnumber` when there are two or more
      underscores. */
  lemma DecomposeRoundTrip(name: string)
    requires '_' in name
    ensures '_' !in Decompose(name).order && '_' !in Decompose(name).dbNumber
    ensures Decompose(name).order + "_" + Decompose(name).key == name
    ensures Find(name, '_') < RFind(name, '_') ==>
              Decompose(name).order + "_" + Decompose(name).udpType + "_" + Decompose(name).dbNumber == name
  {
    FindBeforeRFind(name, '_');
    SlicesRoundTrip(name, Find(name, '_'), RFind(name, '_'));
  }

  lemma SlicesRoundTrip(name: string, f: int, l: int)
    requires 0 <= f <= l < |name| && name[f] == '_' && name[l] == '_'
    requires '_' !in name[..f]
    requires forall j :: l < j < |name| ==> name[j] != '_'
    ensures '_' !in Slices(name, f, l).order && '_' !in Slices(name, f, l).dbNumber
    ensures Slices(name, f, l).order + "_" + Slices(name, f, l).key == name
    ensures f < l ==>
              Slices(name, f, l).order + "_" + Slices(name, f, l).udpType + "_" + Slices(name, f, l).dbNumber == name
  {
    SlicesWithin(name, f, l);
    NoUnderscoreAfter(name, l);
    GlueAt(name, f);
    if f < l {
      GlueTwo(name, f, l);
    }
  }

  lemma GlueTwo(s: string, f: int, l: int)
    requires 0 <= f < l < |s| && s[f] == '_' && s[l] == '_'
    ensures s[..f] + "_" + s[f + 1..l] + "_" + s[l + 1..] == s
  {
    GlueAt(s, l);
    GlueAt(s[..l], f);
    assert s[..l][..f] == s[..f];
    assert s[..l][f + 1..] == s[f + 1..l];
  }

  /** A string is its prefix before position `k`, the character there, and the rest. */
  lemma GlueAt(s: string, k: int)
    requires 0 <= k < |s| && s[k] == '_'
    ensures s[..k] + "_" + s[k + 1..] == s
  {
  }

  lemma NoUnderscoreAfter(s: string, l: int)
    requires 0 <= l < |s|
    requires forall j :: l < j < |s| ==> s[j] != '_'
    ensures '_' !in s[l + 1..]
  {
    var t := s[l + 1..];
    forall j | 0 <= j < |t| ensures t[j] != '_' {
      assert t[j] == s[l + 1 + j];
    }
  }

  /** Without an underscore both find calls give -1, so Python's negative index makes
      the order and the type the name minus its last character, while the key and the DB
      number are the whole name. */
  lemma DecomposeWithoutUnderscore(name: string)
    requires '_' !in name && |name| > 0
    ensures Decompose(name).order == name[..|name| - 1]
    ensures Decompose(name).udpType == name[..|name| - 1]
    ensures Decompose(name).dbNumber == name
    ensures Decompose(name).key == name
  {
    assert name[0..|name|] == name;
  }

  /** A UDP definition: its ID text and its NAME text. */
  datatype UdpDef = UdpDef(id: Option<string>, name: Option<string>)

  /** `dictUDP[key]`. */
  datatype UdpInfo = UdpInfo(id: Option<string>, udpType: string, dbNumber: string)

  /** Whether a definition is registered: the first character of its name is a digit.
      Indexing a NAME without text stops the script. */
  function IsRegistered(name: Option<string>): Result<bool, string> {
    if name.None? then Failure("TypeError")
    else if |name.value| == 0 then Failure("IndexError")
    else Success(IsDigit(name.value[0]))
  }

  function Entry(d: UdpDef): (string, UdpInfo)
    requires d.name.Some?
  {
    var u := Decompose(d.name.value);
    (u.key, UdpInfo(d.id, u.udpType, u.dbNumber))
  }

  /** What one definition contributes: an entry, nothing, or the error that stops the
      script. */
  function Outcome(d: UdpDef): Result<Option<(string, UdpInfo)>, string> {
    match IsRegistered(d.name)
    case Failure(e) => Failure(e)
    case Success(b) => Success(if b then Some(Entry(d)) else None)
  }

  /** The outcomes in order, stopping at the first error. */
  function Collect<T>(os: seq<Result<Option<T>, string>>): Result<seq<T>, string>
    decreases |os|
  {
    if |os| == 0 then Success([])
    else
      match Collect(os[..|os| - 1])
      case Failure(e) => Failure(e)
      case Success(xs) =>
        match os[|os| - 1]
        case Failure(e) => Failure(e)
        case Success(o) => Success(xs + (if o.Some? then [o.value] else []))
  }

  lemma {:induction false} CollectSucceeds<T>(os: seq<Result<Option<T>, string>>)
    ensures Collect(os).Success? <==> forall i :: 0 <= i < |os| ==> os[i].Success?
    decreases |os|
  {
    if |os| > 0 {
      var init := os[..|os| - 1];
      CollectSucceeds(init);
      assert forall i :: 0 <= i < |init| ==> init[i] == os[i];
    }
  }

  lemma {:induction false} CollectMembers<T>(os: seq<Result<Option<T>, string>>, x: T)
    requires Collect(os).Success?
    ensures x in Collect(os).value <==> Success(Some(x)) in os
    decreases |os|
  {
    if |os| > 0 {
      var init := os[..|os| - 1];
      assert os == init + [os[|os| - 1]];
      CollectMembers(init, x);
    }
  }

  /** The (key, info) assignments to `dictUDP`, in document order, or the error that
      stops the script at the first unusable name. */
  function Registrations(defs: seq<UdpDef>): Result<seq<(string, UdpInfo)>, string> {
    Collect(seq(|defs|, i requires 0 <= i < |defs| => Outcome(defs[i])))
  }

  /** The definition at `i` has a usable name that starts with a digit. */
  predicate RegisteredAt(defs: seq<UdpDef>, i: int) {
    0 <= i < |defs| && defs[i].name.Some? && |defs[i].name.value| > 0 && IsDigit(defs[i].name.value[0])
  }

  /** The script gets through the definitions exactly when every NAME has text. */
  lemma RegistrationsSucceed(defs: seq<UdpDef>)
    ensures Registrations(defs).Success? <==>
              forall i :: 0 <= i < |defs| ==> defs[i].name.Some? && |defs[i].name.value| > 0
  {
    var os := seq(|defs|, i requires 0 <= i < |defs| => Outcome(defs[i]));
    CollectSucceeds(os);
    assert forall i :: 0 <= i < |defs| ==> os[i] == Outcome(defs[i]);
  }

  /** A definition is registered, under the key and with the info its name's slices
      give, exactly when its name starts with a digit. */
  lemma RegistrationsMembers(defs: seq<UdpDef>, e: (string, UdpInfo))
    requires Registrations(defs).Success?
    ensures e in Registrations(defs).value <==> exists i :: RegisteredAt(defs, i) && Entry(defs[i]) == e
  {
    var os := seq(|defs|, i requires 0 <= i < |defs| => Outcome(defs[i]));
    CollectMembers(os, e);
    if Success(Some(e)) in os {
      var i :| 0 <= i < |os| && os[i] == Success(Some(e));
      assert Outcome(defs[i]) == Success(Some(e));
      assert RegisteredAt(defs, i);
    }
    if exists i :: RegisteredAt(defs, i) && Entry(defs[i]) == e {
      var i :| RegisteredAt(defs, i) && Entry(defs[i]) == e;
      assert os[i] == Success(Some(e));
    }
  }

  /** `dictUDP`: a later definition with the same key overwrites an earlier one. */
  function UdpTable(es: seq<(string, UdpInfo)>): seq<(string, UdpInfo)> {
    FromPairs(es)
  }

  /** The DB number of each registration, in order. */
  function DbNumberList(es: seq<(string, UdpInfo)>): (ns: seq<string>)
    ensures |ns| == |es|
    ensures forall i :: 0 <= i < |es| ==> ns[i] == es[i].1.dbNumber
  {
    seq(|es|, i requires 0 <= i < |es| => es[i].1.dbNumber)
  }

  /** The keys of `dictUDPDBList`: each DB number once, in order of first
      registration. */
  function DbNumbers(es: seq<(string, UdpInfo)>): seq<string> {
    Dedup(DbNumberList(es))
  }

  /** `dictUDP` holds each key once, with the info of the last registration under it. */
  lemma UdpTableSpec(es: seq<(string, UdpInfo)>, k: string)
    ensures Distinct(Keys(UdpTable(es)))
    ensures Get(UdpTable(es), k) == LastValue(es, k)
  {
  }

  /** `dictUDPDBList` holds each registered DB number once, in order of first mention. */
  lemma DbNumbersSpec(es: seq<(string, UdpInfo)>, n: string)
    ensures Distinct(DbNumbers(es))
    ensures n in DbNumbers(es) <==> exists i :: 0 <= i < |es| && es[i].1.dbNumber == n
    ensures forall i, j :: 0 <= i < j < |DbNumbers(es)| ==>
              FirstIndex(DbNumberList(es), DbNumbers(es)[i]) < FirstIndex(DbNumberList(es), DbNumbers(es)[j])
  {
    var ns := DbNumberList(es);
    DedupOrder(ns);
    if n in DbNumbers(es) {
      var i :| 0 <= i < |ns| && ns[i] == n;
    }
    if exists i :: 0 <= i < |es| && es[i].1.dbNumber == n {
      var i :| 0 <= i < |es| && es[i].1.dbNumber == n;
      assert ns[i] == n;
    }
  }

  // ---------------------------------------------------------------------------
  // relationships of the chosen diagram
  // ---------------------------------------------------------------------------

  /** A RELC element: its DIAGRAMID text and its ID text. */
  datatype Connector = Connector(diagramId: Option<string>, id: Option<string>)

  /** A PAIR element's KEYID and FOREIGNKEYID children. */
  datatype KeyPair = KeyPair(keyId: Node, foreignKeyId: Node)

  /** A REL element's children the script reads. */
  datatype Relationship = Relationship(id: Node, name: Node, parent: Node, child: Node, pairs: seq<KeyPair>)

  /** The keys of `dictObjectRelationships`: the IDs of the connectors on the chosen
      diagram. */
  function Allowed(cs: seq<Connector>, diagramId: Option<string>): seq<Option<string>>
    decreases |cs|
  {
    if |cs| == 0 then []
    else
      var c := cs[|cs| - 1];
      Allowed(cs[..|cs| - 1], diagramId) + (if c.diagramId == diagramId then [c.id] else [])
  }

  lemma {:induction false} AllowedMembers(cs: seq<Connector>, diagramId: Option<string>, x: Option<string>)
    ensures x in Allowed(cs, diagramId) <==> Connector(diagramId, x) in cs
    decreases |cs|
  {
    if |cs| > 0 {
      var init := cs[..|cs| - 1];
      assert cs == init + [cs[|cs| - 1]];
      AllowedMembers(init, diagramId, x);
    }
  }

  /** `find('./PAIRS/PAIR/KEYID')`: the KEYID of the first pair that has one. */
  function FirstKeyId(ps: seq<KeyPair>): Node
    decreases |ps|
  {
    if |ps| == 0 then Missing else if ps[0].keyId.Present? then ps[0].keyId else FirstKeyId(ps[1..])
  }

  /** `find('./PAIRS/PAIR/FOREIGNKEYID')`. */
  function FirstForeignKeyId(ps: seq<KeyPair>): Node
    decreases |ps|
  {
    if |ps| == 0 then Missing
    else if ps[0].foreignKeyId.Present? then ps[0].foreignKeyId
    else FirstForeignKeyId(ps[1..])
  }

  /** The (KEYID text, FOREIGNKEYID text) a relationship adds to the PK and FK
      dictionaries, or None when its `try` block fails: an unknown or missing ID, or a
      missing NAME, PARENTOBJECTID, CHILDOBJECTID, KEYID or FOREIGNKEYID. Nothing is
      assigned before every element has been read. */
  function Indexed(r: Relationship, allowed: seq<Option<string>>): Option<(Option<string>, Option<string>)> {
    if r.id.Missing? || r.id.text !in allowed then None
    else if r.name.Missing? || r.parent.Missing? || r.child.Missing? then None
    else
      var k := FirstKeyId(r.pairs);
      var fk := FirstForeignKeyId(r.pairs);
      if k.Missing? || fk.Missing? then None else Some((k.text, fk.text))
  }

  /** The keys of `dictRelationshipsPK` and `dictRelationshipsFK`, with repeats: the
      KEYID and FOREIGNKEYID texts of the indexed relationships, in document order. */
  function KeyIds(rels: seq<Relationship>, allowed: seq<Option<string>>): (seq<Option<string>>, seq<Option<string>>) {
    (Somes(seq(|rels|, i requires 0 <= i < |rels| => PkOf(Indexed(rels[i], allowed)))),
     Somes(seq(|rels|, i requires 0 <= i < |rels| => FkOf(Indexed(rels[i], allowed)))))
  }

  function PkOf(o: Option<(Option<string>, Option<string>)>): Option<Option<string>> {
    if o.Some? then Some(o.value.0) else None
  }

  function FkOf(o: Option<(Option<string>, Option<string>)>): Option<Option<string>> {
    if o.Some? then Some(o.value.1) else None
  }

  /** A relationship is indexed exactly when its ID is among the chosen diagram's
      connectors and every element it reads is present; its key IDs are then the
      first KEYID and the first FOREIGNKEYID among its pairs. */
  lemma IndexedSpec(r: Relationship, allowed: seq<Option<string>>)
    ensures Indexed(r, allowed).Some? <==>
              r.id.Present? && r.id.text in allowed &&
              r.name.Present? && r.parent.Present? && r.child.Present? &&
              (exists i :: 0 <= i < |r.pairs| && r.pairs[i].keyId.Present?) &&
              (exists i :: 0 <= i < |r.pairs| && r.pairs[i].foreignKeyId.Present?)
    ensures forall i, j ::
              Indexed(r, allowed).Some? &&
              0 <= i < |r.pairs| && r.pairs[i].keyId.Present? && (forall i' :: 0 <= i' < i ==> !r.pairs[i'].keyId.Present?) &&
              0 <= j < |r.pairs| && r.pairs[j].foreignKeyId.Present? &&
              (forall j' :: 0 <= j' < j ==> !r.pairs[j'].foreignKeyId.Present?) ==>
              Indexed(r, allowed).value == (r.pairs[i].keyId.text, r.pairs[j].foreignKeyId.text)
  {
    FirstKeyIdSpec(r.pairs);
    FirstForeignKeyIdSpec(r.pairs);
  }

  lemma {:induction false} FirstKeyIdSpec(ps: seq<KeyPair>)
    ensures FirstKeyId(ps).Present? <==> exists i :: 0 <= i < |ps| && ps[i].keyId.Present?
    ensures forall i :: 0 <= i < |ps| && ps[i].keyId.Present? && (forall j :: 0 <= j < i ==> !ps[j].keyId.Present?) ==>
              FirstKeyId(ps) == ps[i].keyId
    decreases |ps|
  {
    if |ps| > 0 && !ps[0].keyId.Present? {
      var rest := ps[1..];
      FirstKeyIdSpec(rest);
      if exists i :: 0 <= i < |ps| && ps[i].keyId.Present? {
        var i :| 0 <= i < |ps| && ps[i].keyId.Present?;
        assert rest[i - 1] == ps[i];
      }
      forall i | 0 <= i < |ps| && ps[i].keyId.Present? && (forall j :: 0 <= j < i ==> !ps[j].keyId.Present?)
        ensures FirstKeyId(ps) == ps[i].keyId
      {
        assert rest[i - 1] == ps[i];
        forall j | 0 <= j < i - 1 ensures !rest[j].keyId.Present? {
          assert rest[j] == ps[j + 1];
        }
      }
    }
  }

  lemma {:induction false} FirstForeignKeyIdSpec(ps: seq<KeyPair>)
    ensures FirstForeignKeyId(ps).Present? <==> exists i :: 0 <= i < |ps| && ps[i].foreignKeyId.Present?
    ensures forall i :: 0 <= i < |ps| && ps[i].foreignKeyId.Present? && (forall j :: 0 <= j < i ==> !ps[j].foreignKeyId.Present?) ==>
              FirstForeignKeyId(ps) == ps[i].foreignKeyId
    decreases |ps|
  {
    if |ps| > 0 && !ps[0].foreignKeyId.Present? {
      var rest := ps[1..];
      FirstForeignKeyIdSpec(rest);
      if exists i :: 0 <= i < |ps| && ps[i].foreignKeyId.Present? {
        var i :| 0 <= i < |ps| && ps[i].foreignKeyId.Present?;
        assert rest[i - 1] == ps[i];
      }
      forall i | 0 <= i < |ps| && ps[i].foreignKeyId.Present? && (forall j :: 0 <= j < i ==> !ps[j].foreignKeyId.Present?)
        ensures FirstForeignKeyId(ps) == ps[i].foreignKeyId
      {
        assert rest[i - 1] == ps[i];
        forall j | 0 <= j < i - 1 ensures !rest[j].foreignKeyId.Present? {
          assert rest[j] == ps[j + 1];
        }
      }
    }
  }

  /** Some indexed relationship has `x` as its KEYID or its FOREIGNKEYID. */
  predicate IndexedKey(rels: seq<Relationship>, allowed: seq<Option<string>>, x: Option<string>) {
    exists i :: 0 <= i < |rels| && Indexed(rels[i], allowed).Some? &&
      (Indexed(rels[i], allowed).value.0 == x || Indexed(rels[i], allowed).value.1 == x)
  }

  lemma KeyIdsMembers(rels: seq<Relationship>, allowed: seq<Option<string>>, x: Option<string>)
    ensures x in KeyIds(rels, allowed).0 || x in KeyIds(rels, allowed).1 <==> IndexedKey(rels, allowed, x)
  {
    var pks := seq(|rels|, i requires 0 <= i < |rels| => PkOf(Indexed(rels[i], allowed)));
    var fks := seq(|rels|, i requires 0 <= i < |rels| => FkOf(Indexed(rels[i], allowed)));
    SomesMembers(pks, x);
    SomesMembers(fks, x);
    if Some(x) in pks {
      var i :| 0 <= i < |pks| && pks[i] == Some(x);
      assert Indexed(rels[i], allowed).Some? && Indexed(rels[i], allowed).value.0 == x;
    }
    if Some(x) in fks {
      var i :| 0 <= i < |fks| && fks[i] == Some(x);
      assert Indexed(rels[i], allowed).Some? && Indexed(rels[i], allowed).value.1 == x;
    }
    if IndexedKey(rels, allowed, x) {
      var i :| 0 <= i < |rels| && Indexed(rels[i], allowed).Some? &&
        (Indexed(rels[i], allowed).value.0 == x || Indexed(rels[i], allowed).value.1 == x);
      assert pks[i] == PkOf(Indexed(rels[i], allowed));
      assert fks[i] == FkOf(Indexed(rels[i], allowed));
    }
  }

  // ---------------------------------------------------------------------------
  // per-attribute columns
  // ---------------------------------------------------------------------------

  /** The not-null column: the value stays the integer 0 when NNCON/VALUE is missing, and
      is otherwise `str` of its text, so only the text "1" gives "Y". */
  function NotNull(nn: Node): string {
    var v: Option<string> := if nn.Present? then Some(PyStr(nn.text)) else None;
    if v == Some("1") then "Y" else "N"
  }

  lemma NotNullSpec(nn: Node)
    ensures NotNull(nn) == "Y" || NotNull(nn) == "N"
    ensures NotNull(nn) == "Y" <==> nn == Present(Some("1"))
  {
  }

  /** The sourced/derived column: "Derived" when the FK lookup succeeds, otherwise
      "Sourced", then "Derived" again when the PK lookup succeeds. */
  function SourcedDerived(attrId: Option<string>, pkKeys: seq<Option<string>>, fkKeys: seq<Option<string>>): string {
    var s := if attrId in fkKeys then "Derived" else "Sourced";
    if attrId in pkKeys then "Derived" else s
  }

  /** An attribute is "Derived" exactly when its ID is the KEYID or FOREIGNKEYID of an
      indexed relationship of the chosen diagram, and "Sourced" otherwise. */
  lemma DerivedIffIndexed(rels: seq<Relationship>, allowed: seq<Option<string>>, attrId: Option<string>)
    ensures var ks := KeyIds(rels, allowed);
            && (SourcedDerived(attrId, ks.0, ks.1) == "Derived" <==> IndexedKey(rels, allowed, attrId))
            && (SourcedDerived(attrId, ks.0, ks.1) == "Sourced" <==> !IndexedKey(rels, allowed, attrId))
  {
    KeyIdsMembers(rels, allowed, attrId);
  }

  // ---------------------------------------------------------------------------
  // per-attribute lineage
  // ---------------------------------------------------------------------------

  /** `dictMiniUDP`: the attribute's last USERDEFPROPS group, as tag-minus-prefix to
      text; earlier groups are discarded. */
  function MiniUdp(groups: seq<seq<Udp>>): seq<(string, Option<string>)> {
    if |groups| == 0 then []
    else
      var g := groups[|groups| - 1];
      FromPairs(seq(|g|, i requires 0 <= i < |g| => (UdpKey(g[i]), g[i].text)))
  }

  /** Only the last group counts: whatever groups come before it, a tag's value is the
      text of the last property with that tag in the last group. */
  lemma MiniUdpLastGroup(earlier: seq<seq<Udp>>, g: seq<Udp>, k: string)
    ensures MiniUdp(earlier + [g]) == MiniUdp([g])
    ensures Get(MiniUdp(earlier + [g]), k) ==
              LastValue(seq(|g|, i requires 0 <= i < |g| => (UdpKey(g[i]), g[i].text)), k)
  {
  }

  /** `str(dictMiniUDP[dictUDP[key]['ID']]['value'])`, or None where a lookup raises: the
      key is not a UDP, its ID is None, or the attribute has no value for it. */
  function Resolve(udps: seq<(string, UdpInfo)>, mini: seq<(string, Option<string>)>, key: string): Option<string> {
    var info := Get(udps, key);
    if info.None? || info.value.id.None? then None
    else
      var v := Get(mini, info.value.id.value);
      if v.None? then None else Some(PyStr(v.value))
  }

  /** `mp_source_table`, `mp_source_attribute` and what the attribute adds to
      `mp_source_list`. */
  datatype Lineage = Lineage(tables: seq<string>, columns: seq<string>, sources: seq<string>)

  function TableOf(udps: seq<(string, UdpInfo)>, mini: seq<(string, Option<string>)>, n: string): Option<string> {
    Resolve(udps, mini, "source_table_" + n)
  }

  function ColumnOf(udps: seq<(string, UdpInfo)>, mini: seq<(string, Option<string>)>, n: string): Option<string> {
    Resolve(udps, mini, "source_column_" + n)
  }

  /** The loop over DB numbers, given for each number whether its table and its column
      resolve: the table is appended as soon as it resolves; if the column then fails to
      resolve the `try` block stops there, so the column and the source-list entry are
      added only together. */
  function LineageOf(ts: seq<Option<string>>, cs: seq<Option<string>>): Lineage
    requires |ts| == |cs|
    decreases |ts|
  {
    if |ts| == 0 then Lineage([], [], [])
    else
      var k := |ts| - 1;
      var acc := LineageOf(ts[..k], cs[..k]);
      if ts[k].None? then acc
      else if cs[k].None? then acc.(tables := acc.tables + [ts[k].value])
      else Lineage(acc.tables + [ts[k].value], acc.columns + [cs[k].value], acc.sources + [ts[k].value])
  }

  /** Per DB number: the table, when it resolves. */
  function Tables(dbs: seq<string>, udps: seq<(string, UdpInfo)>, mini: seq<(string, Option<string>)>): (r: seq<Option<string>>)
    ensures |r| == |dbs|
  {
    seq(|dbs|, i requires 0 <= i < |dbs| => TableOf(udps, mini, dbs[i]))
  }

  /** Per DB number: the column, when it resolves. */
  function Columns(dbs: seq<string>, udps: seq<(string, UdpInfo)>, mini: seq<(string, Option<string>)>): (r: seq<Option<string>>)
    ensures |r| == |dbs|
  {
    seq(|dbs|, i requires 0 <= i < |dbs| => ColumnOf(udps, mini, dbs[i]))
  }

  /** The lineage of one attribute. */
  function AttributeLineage(dbs: seq<string>, udps: seq<(string, UdpInfo)>, mini: seq<(string, Option<string>)>): Lineage {
    LineageOf(Tables(dbs, udps, mini), Columns(dbs, udps, mini))
  }

  /** `a[i]` where `b[i]` is present too. */
  function Where(a: seq<Option<string>>, b: seq<Option<string>>): (r: seq<Option<string>>)
    requires |a| == |b|
    ensures |r| == |a|
  {
    seq(|a|, i requires 0 <= i < |a| => if b[i].Some? then a[i] else None)
  }

  /** The lineage lists, described independently of the loop: the tables of the DB
      numbers whose table resolves, and the columns and tables of those whose table and
      column both resolve, in DB-number order. */
  lemma AttributeLineageSpec(dbs: seq<string>, udps: seq<(string, UdpInfo)>, mini: seq<(string, Option<string>)>)
    ensures var ts, cs := Tables(dbs, udps, mini), Columns(dbs, udps, mini);
            && AttributeLineage(dbs, udps, mini).tables == Somes(ts)
            && AttributeLineage(dbs, udps, mini).columns == Somes(Where(cs, ts))
            && AttributeLineage(dbs, udps, mini).sources == Somes(Where(ts, cs))
  {
    var ts, cs := Tables(dbs, udps, mini), Columns(dbs, udps, mini);
    LineageOfSpec(ts, cs);
  }

  lemma {:induction false} LineageOfSpec(ts: seq<Option<string>>, cs: seq<Option<string>>)
    requires |ts| == |cs|
    ensures LineageOf(ts, cs).tables == Somes(ts)
    ensures LineageOf(ts, cs).columns == Somes(Where(cs, ts))
    ensures LineageOf(ts, cs).sources == Somes(Where(ts, cs))
    decreases |ts|
  {
    if |ts| > 0 {
      var k := |ts| - 1;
      LineageOfSpec(ts[..k], cs[..k]);
      var wc, wt := Where(cs, ts), Where(ts, cs);
      assert wc[..k] == Where(cs[..k], ts[..k]);
      assert wt[..k] == Where(ts[..k], cs[..k]);
      assert wc[k] == if ts[k].Some? then cs[k] else None;
      assert wt[k] == if cs[k].Some? then ts[k] else None;
    }
  }

  /** Every column comes with its table in the source list, but a table can be listed
      without a column, so the table list can be the longer one. */
  lemma AttributeLineageLengths(dbs: seq<string>, udps: seq<(string, UdpInfo)>, mini: seq<(string, Option<string>)>)
    ensures |AttributeLineage(dbs, udps, mini).columns| == |AttributeLineage(dbs, udps, mini).sources|
    ensures |AttributeLineage(dbs, udps, mini).sources| <= |AttributeLineage(dbs, udps, mini).tables|
    ensures forall i :: 0 <= i < |AttributeLineage(dbs, udps, mini).sources| ==>
              AttributeLineage(dbs, udps, mini).sources[i] in AttributeLineage(dbs, udps, mini).tables
  {
    LineageOfLengths(Tables(dbs, udps, mini), Columns(dbs, udps, mini));
  }

  lemma {:induction false} LineageOfLengths(ts: seq<Option<string>>, cs: seq<Option<string>>)
    requires |ts| == |cs|
    ensures |LineageOf(ts, cs).columns| == |LineageOf(ts, cs).sources| <= |LineageOf(ts, cs).tables|
    ensures forall i :: 0 <= i < |LineageOf(ts, cs).sources| ==> LineageOf(ts, cs).sources[i] in LineageOf(ts, cs).tables
    decreases |ts|
  {
    if |ts| > 0 {
      LineageOfLengths(ts[..|ts| - 1], cs[..|ts| - 1]);
    }
  }

  // ---------------------------------------------------------------------------
  // default triple
  // ---------------------------------------------------------------------------

  /** `dictDefaultDataTypes`: the parser's table plus an empty "DEFAULT" entry. */
  const SCRIPT_DEFAULTS: map<string, Triple> := DEFAULTS["DEFAULT" := NoDefaults]

  /** The default triple of an attribute with DTLISTNAME text `dtype` and NAME text
      `name`: exact names and type for the two effective timestamps, otherwise a
      case-sensitive lookup that falls back to the "DEFAULT" entry. */
  function ScriptDefault(dtype: Option<string>, name: Option<string>): Triple {
    if dtype == Some("TIMESTAMP") && name == Some("effective_start_utc_timestamp") then
      SCRIPT_DEFAULTS["TIMESTAMP-Start"]
    else if dtype == Some("TIMESTAMP") && name == Some("effective_end_utc_timestamp") then
      SCRIPT_DEFAULTS["TIMESTAMP-End"]
    else if dtype.Some? && dtype.value in SCRIPT_DEFAULTS then SCRIPT_DEFAULTS[dtype.value]
    else SCRIPT_DEFAULTS["DEFAULT"]
  }

  /** The two effective timestamps get the start and end of time; any other attribute
      gets the parser's entry for its exact datatype, or three empty strings. */
  lemma ScriptDefaultSpec(dtype: Option<string>, name: Option<string>)
    ensures dtype == Some("TIMESTAMP") && name == Some("effective_start_utc_timestamp") ==>
              ScriptDefault(dtype, name) == Triple(StartOfTime, StartOfTime, StartOfTime)
    ensures dtype == Some("TIMESTAMP") && name == Some("effective_end_utc_timestamp") ==>
              ScriptDefault(dtype, name) == Triple(EndOfTime, EndOfTime, EndOfTime)
    ensures !(dtype == Some("TIMESTAMP") && name in {Some("effective_start_utc_timestamp"), Some("effective_end_utc_timestamp")}) ==>
              ScriptDefault(dtype, name) == (if dtype.Some? && dtype.value in DEFAULTS then DEFAULTS[dtype.value] else NoDefaults)
  {
    assert "DEFAULT" !in DEFAULTS;
  }

  lemma EffectiveStartName()
    ensures IsInfix("effective_start", Lower("effective_start_utc_timestamp"))
  {
    assert Lower("effective_start_utc_timestamp") == "effective_start_utc_timestamp";
    assert StartsWith("effective_start_utc_timestamp", "effective_start");
  }

  lemma EffectiveEndName()
    ensures IsInfix("effective_end", Lower("effective_end_utc_timestamp"))
  {
    assert Lower("effective_end_utc_timestamp") == "effective_end_utc_timestamp";
    assert StartsWith("effective_end_utc_timestamp", "effective_end");
  }

  /** Where the parser's rule does not look at the name and its upper-casing changes
      nothing, the script picks the same triple. */
  lemma ScriptAgreesWithParser(dtype: string, name: string)
    requires Upper(dtype) == dtype
    requires !IsInfix("effective_start", Lower(name)) && !IsInfix("effective_end", Lower(name))
    ensures ScriptDefault(Some(dtype), Some(name)) == ResolveDefaults(name, dtype)
  {
    EffectiveStartName();
    EffectiveEndName();
    ScriptDefaultSpec(Some(dtype), Some(name));
  }

  /** Unlike the parser, the script is case-sensitive: a lower-case `int64` gets the empty
      triple. */
  lemma ScriptDefaultCaseSensitive(name: Option<string>)
    ensures ScriptDefault(Some("int64"), name) == NoDefaults
  {
    ScriptDefaultSpec(Some("int64"), name);
    assert "int64" !in DEFAULTS;
  }

  // ---------------------------------------------------------------------------
  // entity source list
  // ---------------------------------------------------------------------------

  function Concat(ss: seq<seq<string>>): seq<string>
    decreases |ss|
  {
    if |ss| == 0 then [] else Concat(ss[..|ss| - 1]) + ss[|ss| - 1]
  }

  /** `list(dict.fromkeys(mp_source_list))` over the source-list entries of an entity's
      attributes. */
  function SourceList(perAttr: seq<seq<string>>): seq<string> {
    Dedup(Concat(perAttr))
  }

  /** Each source table is listed once, every table some attribute names is listed, and
      the order is that of first mention. */
  lemma SourceListSpec(perAttr: seq<seq<string>>, x: string)
    ensures Distinct(SourceList(perAttr))
    ensures x in SourceList(perAttr) <==> exists a :: 0 <= a < |perAttr| && x in perAttr[a]
    ensures forall i, j :: 0 <= i < j < |SourceList(perAttr)| ==>
              FirstIndex(Concat(perAttr), SourceList(perAttr)[i]) < FirstIndex(Concat(perAttr), SourceList(perAttr)[j])
  {
    ConcatMembers(perAttr, x);
    DedupOrder(Concat(perAttr));
  }

  lemma {:induction false} ConcatMembers(ss: seq<seq<string>>, x: string)
    ensures x in Concat(ss) <==> exists a :: 0 <= a < |ss| && x in ss[a]
    decreases |ss|
  {
    if |ss| > 0 {
      var init := ss[..|ss| - 1];
      ConcatMembers(init, x);
      if exists a :: 0 <= a < |init| && x in init[a] {
        var a :| 0 <= a < |init| && x in init[a];
        assert ss[a] == init[a];
      }
      if exists a :: 0 <= a < |ss| && x in ss[a] {
        var a :| 0 <= a < |ss| && x in ss[a];
        if a < |init| {
          assert init[a] == ss[a];
        }
      }
    }
  }
}
