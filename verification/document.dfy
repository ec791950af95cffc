/** The part of a DeZign `.dez` XML tree the converter reads, as immutable data.

    Every `Option<string>` that stands for a child element is what ElementTree's
    `findtext` returns for it: `None` when the element is missing, `Some(t)` when it is
    present, with `t == ""` for an element without text. The one exception is the text of
    an element that is iterated rather than looked up (`Udp.text`, the entries of
    `Ent.pkIds`): there `None` is Python's `elem.text is None`, an empty element. */
module Dez {
  import opened Wrappers
  import opened Text

  /** A child of a USERDEFPROPS element. */
  datatype Udp = Udp(tag: string, text: Option<string>)

  /** ENTITIES/ENT/ATTRIBUTES/ATTR: ID, NAME, DESC, DT/DTLISTNAME, NNCON/VALUE, USERDEFPROPS children. */
  datatype Attr = Attr(
    id: Option<string>,
    name: Option<string>,
    desc: Option<string>,
    dtListName: Option<string>,
    nnValue: Option<string>,
    udps: seq<Udp>)

  /** ENTITIES/ENT: ID, NAME, DESC, PKCON/ATTRIBUTEIDS/ATTRIBUTEID*, USERDEFPROPS children, ATTRIBUTES/ATTR*. */
  datatype Ent = Ent(
    id: Option<string>,
    name: Option<string>,
    desc: Option<string>,
    pkIds: seq<Option<string>>,
    udps: seq<Udp>,
    attrs: seq<Attr>)

  /** RELATIONSHIPS/REL/PAIRS/PAIR: the FOREIGNKEYID child. */
  datatype Pair = Pair(foreignKeyId: Option<string>)

  /** RELATIONSHIPS/REL: PARENTOBJECTID, CHILDOBJECTID and the PAIRS/PAIR list. */
  datatype Rel = Rel(parent: Option<string>, child: Option<string>, pairs: seq<Pair>)

  /** DIAGRAMS/DIAGRAM: ID and NAME. */
  datatype Diagram = Diagram(id: Option<string>, name: Option<string>)

  /** DIAGRAMS/CONTROLS/ENTITYCONTROLS/ENTC: the DIAGRAMID it sits on and the entity ID. */
  datatype EntityControl = EntityControl(diagramId: Option<string>, id: Option<string>)

  /** The whole document, every list in document order. */
  datatype Doc = Doc(
    ents: seq<Ent>,
    rels: seq<Rel>,
    diagrams: seq<Diagram>,
    entityControls: seq<EntityControl>)

  /** `elem.findtext(path, default)`. */
  function FindText(o: Option<string>, default: string): string {
    o.GetOr(default)
  }

  /** Python truthiness of `elem.findtext(path)`: present and non-empty. */
  predicate Truthy(o: Option<string>) {
    o.Some? && o.value != ""
  }

  /** `u.tag[4:]`: the property name with the four-character tag prefix cut off. */
  function UdpKey(u: Udp): string {
    PySlice(u.tag, 4, |u.tag|)
  }

  /** `u.text or ""`. */
  function UdpText(u: Udp): string {
    u.text.GetOr("")
  }
}
