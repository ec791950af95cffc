/** `parse_dez_file` of utils/dez_parser.py as a pure function of the document tree:
    the entity-ID-to-name map, the foreign-key index, and per entity the primary-key
    set, lineage, table options and one field record per attribute. */
module DezParser {
  import opened Wrappers
  import opened Text
  import opened Seqs
  import opened Dict
  import opened Dez
  import opened Defaults
  import opened TableOptions
  import opened Lineage

  // ---------------------------------------------------------------------------
  // Entity-ID to name map
  // ---------------------------------------------------------------------------

  /** The (ID, NAME) pairs of the entities whose ID and NAME are both non-empty, in
      document order. */
  function IdNamePairs(ents: seq<Ent>): (ps: seq<(string, string)>)
    ensures forall i :: 0 <= i < |ps| ==> ps[i].0 != "" && ps[i].1 != ""
    decreases |ents|
  {
    if |ents| == 0 then []
    else
      var e := ents[|ents| - 1];
      IdNamePairs(ents[..|ents| - 1]) +
        (if Truthy(e.id) && Truthy(e.name) then [(e.id.value, e.name.value)] else [])
  }

  /** `id2name`: later entities with the same ID overwrite earlier ones. */
  function IdToName(ents: seq<Ent>): (m: seq<(string, string)>)
    ensures Distinct(Keys(m))
    ensures forall k :: Get(m, k) == LastValue(IdNamePairs(ents), k)
  {
    FromPairs(IdNamePairs(ents))
  }

  /** Only an entity with a non-empty ID and a non-empty NAME enters the map, under its
      ID and with its NAME, and it overrides every earlier entity with that ID. */
  lemma {:induction false} IdToNameLast(ents: seq<Ent>, e: Ent, k: string)
    ensures Get(IdToName(ents + [e]), k) ==
              if Truthy(e.id) && Truthy(e.name) && e.id.value == k then Some(e.name.value)
              else Get(IdToName(ents), k)
  {
    var ps := IdNamePairs(ents);
    var ps' := IdNamePairs(ents + [e]);
    assert (ents + [e])[..|ents|] == ents;
    if Truthy(e.id) && Truthy(e.name) {
      assert ps' == ps + [(e.id.value, e.name.value)];
      assert ps'[..|ps'| - 1] == ps;
    } else {
      assert ps' == ps;
    }
  }

  /** Every name the map yields is non-empty and is found under a non-empty ID. */
  lemma {:induction false} IdToNameNonEmpty(ents: seq<Ent>, k: string)
    requires Get(IdToName(ents), k).Some?
    ensures k != "" && Get(IdToName(ents), k).value != ""
  {
    LastValueFrom(IdNamePairs(ents), k);
  }

  lemma {:induction false} LastValueFrom(ps: seq<(string, string)>, k: string)
    requires forall i :: 0 <= i < |ps| ==> ps[i].0 != "" && ps[i].1 != ""
    requires LastValue(ps, k).Some?
    ensures k != "" && LastValue(ps, k).value != ""
    decreases |ps|
  {
    if ps[|ps| - 1].0 != k {
      LastValueFrom(ps[..|ps| - 1], k);
    }
  }

  // ---------------------------------------------------------------------------
  // Foreign-key index
  // ---------------------------------------------------------------------------

  /** `fk_for_entity`: child entity ID to (foreign-key attribute ID to parent name). */
  type FkIndex = seq<(string, seq<(string, string)>)>

  /** The FOREIGNKEYID texts of the pairs, skipping missing and empty ones. */
  function FkIds(pairs: seq<Pair>): seq<string>
    decreases |pairs|
  {
    if |pairs| == 0 then []
    else
      var p := pairs[|pairs| - 1];
      FkIds(pairs[..|pairs| - 1]) + (if Truthy(p.foreignKeyId) then [p.foreignKeyId.value] else [])
  }

  /** The inner loop: every listed attribute is mapped to `parent`. */
  function AddPairs(m: seq<(string, string)>, pairs: seq<Pair>, parent: string): (r: seq<(string, string)>)
    requires Distinct(Keys(m))
    ensures Distinct(Keys(r))
    ensures forall a :: Get(r, a) == if a in FkIds(pairs) then Some(parent) else Get(m, a)
    decreases |pairs|
  {
    if |pairs| == 0 then m
    else
      var init := pairs[..|pairs| - 1];
      var p := pairs[|pairs| - 1];
      var r := AddPairs(m, init, parent);
      if Truthy(p.foreignKeyId) then
        assert FkIds(pairs) == FkIds(init) + [p.foreignKeyId.value];
        Put(r, p.foreignKeyId.value, parent)
      else
        assert FkIds(pairs) == FkIds(init);
        r
  }

  /** The parent name a relationship resolves to, `""` when its parent ID is unknown. */
  function ParentName(rel: Rel, id2name: seq<(string, string)>): string {
    Get(id2name, FindText(rel.parent, "")).GetOr("")
  }

  /** A relationship counts when it has a child ID and its parent resolves. */
  predicate Contributes(rel: Rel, id2name: seq<(string, string)>) {
    FindText(rel.child, "") != "" && ParentName(rel, id2name) != ""
  }

  /** The relationship loop, in document order. `setdefault` creates the child's entry
      even when no pair contributes. */
  function FkIndexOf(rels: seq<Rel>, id2name: seq<(string, string)>): (fk: FkIndex)
    ensures Distinct(Keys(fk))
    ensures forall i :: 0 <= i < |fk| ==> Distinct(Keys(fk[i].1))
    decreases |rels|
  {
    if |rels| == 0 then []
    else
      var fk := FkIndexOf(rels[..|rels| - 1], id2name);
      var rel := rels[|rels| - 1];
      if Contributes(rel, id2name) then
        var cid := rel.child.value;
        var m := Get(fk, cid).GetOr([]);
        assert Distinct(Keys(m)) by {
          if cid in Keys(fk) {
            assert fk[FirstIndex(Keys(fk), cid)].1 == m;
          }
        }
        var r := Put(fk, cid, AddPairs(m, rel.pairs, ParentName(rel, id2name)));
        forall i | 0 <= i < |r| ensures Distinct(Keys(r[i].1)) {
          assert r[i].0 in Keys(r);
          FirstIndexDistinct(Keys(r), i);
          if r[i].0 != cid {
            assert r[i].0 in Keys(fk);
            assert Get(fk, r[i].0) == Some(r[i].1);
          }
        }
        r
      else fk
  }

  /** The parent recorded for (child, attribute): the parent of the last contributing
      relationship with that child that lists the attribute in a pair. */
  function LastParent(rels: seq<Rel>, id2name: seq<(string, string)>, cid: string, aid: string): Option<string>
    decreases |rels|
  {
    if |rels| == 0 then None
    else
      var rel := rels[|rels| - 1];
      if Contributes(rel, id2name) && rel.child.value == cid && aid in FkIds(rel.pairs)
      then Some(ParentName(rel, id2name))
      else LastParent(rels[..|rels| - 1], id2name, cid, aid)
  }

  /** `fk_for_entity.get(cid, {}).get(aid)`. */
  function FkLookup(fk: FkIndex, cid: string, aid: string): Option<string> {
    Get(Get(fk, cid).GetOr([]), aid)
  }

  /** The index agrees with the reference reading: the parent of the last relationship
      that names the attribute wins. */
  lemma {:induction false} FkIndexLastWins(rels: seq<Rel>, id2name: seq<(string, string)>, cid: string, aid: string)
    ensures FkLookup(FkIndexOf(rels, id2name), cid, aid) == LastParent(rels, id2name, cid, aid)
    decreases |rels|
  {
    if |rels| > 0 {
      FkIndexLastWins(rels[..|rels| - 1], id2name, cid, aid);
    }
  }

  /** One relationship adds its child ID to the keys if it contributes, and nothing
      otherwise. */
  lemma FkIndexKeysStep(rels: seq<Rel>, id2name: seq<(string, string)>, cid: string)
    requires |rels| > 0
    ensures var last := rels[|rels| - 1];
            cid in Keys(FkIndexOf(rels, id2name)) <==>
              cid in Keys(FkIndexOf(rels[..|rels| - 1], id2name)) || (Contributes(last, id2name) && last.child.value == cid)
  {
  }

  /** A child ID has an entry exactly when some relationship with that child resolves
      its parent, whether or not any of its pairs names an attribute. */
  lemma {:induction false} FkIndexEntries(rels: seq<Rel>, id2name: seq<(string, string)>, cid: string)
    ensures cid in Keys(FkIndexOf(rels, id2name)) <==>
              exists i :: 0 <= i < |rels| && Contributes(rels[i], id2name) && rels[i].child.value == cid
    decreases |rels|
  {
    if |rels| > 0 {
      var init := rels[..|rels| - 1];
      FkIndexEntries(init, id2name, cid);
      FkIndexKeysStep(rels, id2name, cid);
      var last := |rels| - 1;
      if cid in Keys(FkIndexOf(rels, id2name)) {
        if cid in Keys(FkIndexOf(init, id2name)) {
          var i :| 0 <= i < |init| && Contributes(init[i], id2name) && init[i].child.value == cid;
          assert rels[i] == init[i];
        } else {
          assert Contributes(rels[last], id2name) && rels[last].child.value == cid;
        }
      } else {
        forall i | 0 <= i < |rels| ensures !(Contributes(rels[i], id2name) && rels[i].child.value == cid) {
          if i < |init| {
            assert rels[i] == init[i];
          }
        }
      }
    }
  }

  /** A relationship whose parent does not resolve, or which has no child ID, is
      skipped without error and changes nothing. */
  lemma DanglingIgnored(rels: seq<Rel>, rel: Rel, id2name: seq<(string, string)>)
    requires !Contributes(rel, id2name)
    ensures FkIndexOf(rels + [rel], id2name) == FkIndexOf(rels, id2name)
  {
    assert (rels + [rel])[..|rels|] == rels;
  }

  // ---------------------------------------------------------------------------
  // Fields
  // ---------------------------------------------------------------------------

  /** The primary-key attribute IDs: the stripped texts of the non-empty ATTRIBUTEID
      elements. */
  function PkSet(pkIds: seq<Option<string>>): (pk: set<string>)
    ensures forall i :: 0 <= i < |pkIds| && Truthy(pkIds[i]) ==> Strip(pkIds[i].value) in pk
    ensures forall a :: a in pk ==> exists i :: 0 <= i < |pkIds| && Truthy(pkIds[i]) && Strip(pkIds[i].value) == a
  {
    set i | 0 <= i < |pkIds| && Truthy(pkIds[i]) :: Strip(pkIds[i].value)
  }

  /** The key role of a field. */
  function KeyType(isPk: bool, isFk: bool): string {
    if isPk && isFk then "PRIMARY, FOREIGN"
    else if isPk then "PRIMARY"
    else if isFk then "FOREIGN"
    else ""
  }

  /** The key-role text is a faithful encoding: both memberships can be read back. */
  lemma KeyTypeDecodes(isPk: bool, isFk: bool)
    ensures StartsWith(KeyType(isPk, isFk), "PRIMARY") == isPk
    ensures IsInfix("FOREIGN", KeyType(isPk, isFk)) == isFk
  {
    var kt := KeyType(isPk, isFk);
    if isPk && isFk {
      assert kt[..7] == "PRIMARY";
      assert kt[9..][..7] == "FOREIGN";
      assert IsInfix("FOREIGN", kt[9..]);
      InfixDrop(kt, 0, 9);
      assert kt[0..] == kt;
    } else if isPk {
      assert kt[..7] == "PRIMARY";
      NotInfixShort("FOREIGN", kt);
    } else if isFk {
      assert kt[..7] == "FOREIGN";
      assert kt[..7][0] != "PRIMARY"[0];
    } else {
      NotInfixShort("FOREIGN", kt);
    }
  }

  /** An infix of a suffix is an infix of every longer suffix. */
  lemma {:induction false} InfixDrop(s: string, i: nat, j: nat)
    requires i <= j <= |s|
    requires IsInfix("FOREIGN", s[j..])
    ensures IsInfix("FOREIGN", s[i..])
    decreases j - i
  {
    if i < j {
      assert s[i..][1..] == s[i + 1..];
      InfixDrop(s, i + 1, j);
    }
  }

  /** "PRIMARY" does not contain "FOREIGN"; neither does "". */
  lemma NotInfixShort(sub: string, s: string)
    requires sub == "FOREIGN" && (s == "PRIMARY" || s == "")
    ensures !IsInfix(sub, s)
  {
    if s == "PRIMARY" {
      assert s[..|sub|][0] != sub[0];
      assert s[1..] == "RIMARY";
      assert !IsInfix(sub, s[1..]) by { ShortNotInfix(sub, s[1..]); }
    }
  }

  lemma {:induction false} ShortNotInfix(sub: string, s: string)
    requires |s| < |sub|
    ensures !IsInfix(sub, s)
    decreases |s|
  {
    if |s| > 0 {
      ShortNotInfix(sub, s[1..]);
    }
  }

  /** What the field-level property loop collects: the `source_table*` texts, the
      `source_column*` texts, and the partition and clustering flags. */
  datatype FieldProps = FieldProps(st: seq<string>, sc: seq<string>, part: string, clust: string)

  /** The loop over the attribute's USERDEFPROPS children, in document order, starting
      from the flags the table options decided. */
  function ScanProps(udps: seq<Udp>, part0: string, clust0: string): FieldProps
    decreases |udps|
  {
    if |udps| == 0 then FieldProps([], [], part0, clust0)
    else
      var acc := ScanProps(udps[..|udps| - 1], part0, clust0);
      var u := udps[|udps| - 1];
      var tag := Lower(UdpKey(u));
      if StartsWith(tag, "source_table") then acc.(st := acc.st + [UdpText(u)])
      else if StartsWith(tag, "source_column") then acc.(sc := acc.sc + [UdpText(u)])
      else if tag == "partitioning" && acc.part == "" then acc.(part := UdpText(u))
      else if tag == "clustering" && acc.clust == "" then acc.(clust := UdpText(u))
      else acc
  }

  /** The texts of the properties whose lower-cased name satisfies `sel`, in order. */
  function TextsWhere(udps: seq<Udp>, sel: string -> bool): seq<string>
    decreases |udps|
  {
    if |udps| == 0 then []
    else
      TextsWhere(udps[..|udps| - 1], sel) +
        (if sel(Lower(UdpKey(udps[|udps| - 1]))) then [UdpText(udps[|udps| - 1])] else [])
  }

  /** The first non-empty text of a property with exactly this lower-cased name, or "". */
  function FirstNonEmpty(udps: seq<Udp>, name: string): string
    decreases |udps|
  {
    if |udps| == 0 then ""
    else if Lower(UdpKey(udps[0])) == name && UdpText(udps[0]) != "" then UdpText(udps[0])
    else FirstNonEmpty(udps[1..], name)
  }

  predicate IsTableTag(tag: string) { StartsWith(tag, "source_table") }

  predicate IsColumnTag(tag: string) { StartsWith(tag, "source_column") }

  /** No tag is both a `source_table*` and a `source_column*` name. */
  lemma TableColumnDisjoint(tag: string)
    ensures !(IsTableTag(tag) && IsColumnTag(tag))
  {
    if IsTableTag(tag) {
      assert tag[..12][7] == 't';
      assert |tag| < 13 || tag[..13][7] == 't';
    }
  }

  /** The loop collects every `source_table*` text and every `source_column*` text in
      document order (all of them, not only the last), and a flag that starts empty
      takes the first non-empty text of its property while one that starts non-empty
      keeps its value. */
  lemma {:induction false} ScanPropsSpec(udps: seq<Udp>, part0: string, clust0: string)
    ensures ScanProps(udps, part0, clust0).st == TextsWhere(udps, IsTableTag)
    ensures ScanProps(udps, part0, clust0).sc == TextsWhere(udps, IsColumnTag)
    ensures ScanProps(udps, part0, clust0).part ==
              if part0 != "" then part0 else FirstNonEmpty(udps, "partitioning")
    ensures ScanProps(udps, part0, clust0).clust ==
              if clust0 != "" then clust0 else FirstNonEmpty(udps, "clustering")
    decreases |udps|
  {
    if |udps| > 0 {
      var init := udps[..|udps| - 1];
      var u := udps[|udps| - 1];
      assert udps == init + [u];
      ScanPropsSpec(init, part0, clust0);
      TableColumnDisjoint(Lower(UdpKey(u)));
      FirstNonEmptySnoc(init, u, "partitioning");
      FirstNonEmptySnoc(init, u, "clustering");
      assert "partitioning"[0] != "clustering"[0];
      assert !IsTableTag("partitioning") && !IsColumnTag("partitioning");
      assert !IsTableTag("clustering") && !IsColumnTag("clustering");
    }
  }

  lemma {:induction false} FirstNonEmptySnoc(udps: seq<Udp>, u: Udp, name: string)
    ensures FirstNonEmpty(udps + [u], name) ==
              if FirstNonEmpty(udps, name) != "" then FirstNonEmpty(udps, name)
              else if Lower(UdpKey(u)) == name then UdpText(u)
              else ""
    decreases |udps|
  {
    if |udps| > 0 {
      assert (udps + [u])[1..] == udps[1..] + [u];
      FirstNonEmptySnoc(udps[1..], u, name);
    } else {
      assert [] + [u] == [u];
      assert [u][1..] == [];
    }
  }

  /** One element of `fields`. */
  datatype Field = Field(
    name: string,
    description: string,
    dataType: string,
    sourced: bool,
    notNull: bool,
    srcTable: string,
    srcAttr: string,
    defVal: string,
    defM1: string,
    defM2: string,
    keyType: string,
    referencedDimension: string,
    partitioning: string,
    clustering: string)

  /** The field record of one ATTR, given the entity's primary-key set, its slice of the
      foreign-key index and the partition and cluster column lists. */
  function FieldOf(attr: Attr, pk: set<string>, fkMap: seq<(string, string)>,
                   partCols: seq<string>, clustCols: seq<string>): (f: Field)
    ensures f.notNull <==> attr.nnValue == Some("1")
    ensures f.dataType == (if attr.dtListName.None? then "STRING" else attr.dtListName.value)
    ensures f.name == FindText(attr.name, "") && f.description == FindText(attr.desc, "")
    ensures Triple(f.defVal, f.defM1, f.defM2) == ResolveDefaults(f.name, f.dataType)
  {
    var aid := FindText(attr.id, "");
    var name := FindText(attr.name, "");
    var dtype := FindText(attr.dtListName, "STRING");
    var isPk := aid in pk;
    var isFk := aid in Keys(fkMap);
    var props := ScanProps(attr.udps, if name in partCols then "Y" else "",
                                      if name in clustCols then "Y" else "");
    var defs := ResolveDefaults(name, dtype);
    Field(name, FindText(attr.desc, ""), dtype, !isFk, attr.nnValue == Some("1"),
          Join(props.st, ", "), Join(props.sc, ", "),
          defs.value, defs.record1, defs.record2,
          KeyType(isPk, isFk), Get(fkMap, aid).GetOr(""), props.part, props.clust)
  }

  /** The key columns of a field: PRIMARY when its ID is in the key set, FOREIGN when the
      relationships name it for its entity, in which case it is derived rather than
      sourced and refers to the parent entity. */
  lemma FieldOfKeys(attr: Attr, pk: set<string>, fkMap: seq<(string, string)>,
                    partCols: seq<string>, clustCols: seq<string>)
    ensures var f := FieldOf(attr, pk, fkMap, partCols, clustCols);
            var aid := FindText(attr.id, "");
            && (f.keyType == "PRIMARY, FOREIGN" <==> aid in pk && aid in Keys(fkMap))
            && (f.keyType == "PRIMARY" <==> aid in pk && aid !in Keys(fkMap))
            && (f.keyType == "FOREIGN" <==> aid !in pk && aid in Keys(fkMap))
            && (f.keyType == "" <==> aid !in pk && aid !in Keys(fkMap))
            && (f.sourced <==> aid !in Keys(fkMap))
            && f.referencedDimension == Get(fkMap, aid).GetOr("")
  {
  }

  /** The UDP-derived columns of a field: the partition and cluster flags are "Y" when
      the table options name the field and otherwise the first non-empty UDP of that
      name; the source table and attribute join every matching UDP with ", ". */
  lemma FieldOfProps(attr: Attr, pk: set<string>, fkMap: seq<(string, string)>,
                     partCols: seq<string>, clustCols: seq<string>)
    ensures var f := FieldOf(attr, pk, fkMap, partCols, clustCols);
            && (f.name in partCols ==> f.partitioning == "Y")
            && (f.name !in partCols ==> f.partitioning == FirstNonEmpty(attr.udps, "partitioning"))
            && (f.name in clustCols ==> f.clustering == "Y")
            && (f.name !in clustCols ==> f.clustering == FirstNonEmpty(attr.udps, "clustering"))
            && f.srcTable == Join(TextsWhere(attr.udps, IsTableTag), ", ")
            && f.srcAttr == Join(TextsWhere(attr.udps, IsColumnTag), ", ")
  {
    var name := FindText(attr.name, "");
    ScanPropsSpec(attr.udps, if name in partCols then "Y" else "",
                             if name in clustCols then "Y" else "");
  }

  // ---------------------------------------------------------------------------
  // Entities
  // ---------------------------------------------------------------------------

  /** One element of the returned list. */
  datatype Entity = Entity(
    name: string,
    description: string,
    sources: seq<Source>,
    tableOptions: string,
    fields: seq<Field>)

  function EntityOf(ent: Ent, fk: FkIndex): (r: Entity)
    ensures r.name == FindText(ent.name, "") && r.description == FindText(ent.desc, "")
    ensures r.sources == EntitySources(ent.udps)
    ensures r.tableOptions == Get(UdpDict(ent.udps), "table_options").GetOr("")
    ensures |r.fields| == |ent.attrs|
    ensures forall j :: 0 <= j < |ent.attrs| ==>
              r.fields[j] == FieldOf(ent.attrs[j], PkSet(ent.pkIds),
                                     Get(fk, FindText(ent.id, "")).GetOr([]),
                                     PartitionColumns(r.tableOptions), ClusterColumns(r.tableOptions))
  {
    var opts := Get(UdpDict(ent.udps), "table_options").GetOr("");
    var pk := PkSet(ent.pkIds);
    var fkMap := Get(fk, FindText(ent.id, "")).GetOr([]);
    var partCols := PartitionColumns(opts);
    var clustCols := ClusterColumns(opts);
    Entity(FindText(ent.name, ""), FindText(ent.desc, ""), EntitySources(ent.udps), opts,
           seq(|ent.attrs|, j requires 0 <= j < |ent.attrs| =>
                 FieldOf(ent.attrs[j], pk, fkMap, partCols, clustCols)))
  }

  /** `parse_dez_file` after the XML has been read: one entity per ENT and one field per
      ATTR, both in document order. */
  function Parse(doc: Doc): (r: seq<Entity>)
    ensures |r| == |doc.ents|
  {
    var fk := FkIndexOf(doc.rels, IdToName(doc.ents));
    seq(|doc.ents|, i requires 0 <= i < |doc.ents| => EntityOf(doc.ents[i], fk))
  }

  /** Entity `i` carries the name of ENT `i` and one field per ATTR, named after it. */
  lemma ParseShape(doc: Doc, i: nat)
    requires i < |doc.ents|
    ensures Parse(doc)[i].name == FindText(doc.ents[i].name, "")
    ensures |Parse(doc)[i].fields| == |doc.ents[i].attrs|
    ensures forall j :: 0 <= j < |doc.ents[i].attrs| ==>
              Parse(doc)[i].fields[j].name == FindText(doc.ents[i].attrs[j].name, "")
  {
    var e := Parse(doc)[i];
    assert e == EntityOf(doc.ents[i], FkIndexOf(doc.rels, IdToName(doc.ents)));
  }

  /** A field is marked foreign exactly when the relationships name it for its entity,
      and then its referenced dimension is the parent of the last such relationship. */
  lemma ParseForeignKeys(doc: Doc, i: nat, j: nat)
    requires i < |doc.ents| && j < |doc.ents[i].attrs|
    ensures var f := Parse(doc)[i].fields[j];
            var p := LastParent(doc.rels, IdToName(doc.ents), FindText(doc.ents[i].id, ""),
                                FindText(doc.ents[i].attrs[j].id, ""));
            && (!f.sourced <==> p.Some?)
            && f.referencedDimension == p.GetOr("")
  {
    var fk := FkIndexOf(doc.rels, IdToName(doc.ents));
    var cid := FindText(doc.ents[i].id, "");
    var aid := FindText(doc.ents[i].attrs[j].id, "");
    FkIndexLastWins(doc.rels, IdToName(doc.ents), cid, aid);
    var m := Get(fk, cid).GetOr([]);
    var e := doc.ents[i];
    var opts := Get(UdpDict(e.udps), "table_options").GetOr("");
    FieldOfKeys(e.attrs[j], PkSet(e.pkIds), m, PartitionColumns(opts), ClusterColumns(opts));
    assert aid in Keys(m) <==> Get(m, aid).Some?;
  }
}
