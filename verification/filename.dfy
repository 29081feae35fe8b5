/** File tags and who may touch them (`src/filename.rs`). A tag starts with its file type:
    `0x00` the package list, `0x01` the CAP file of a package (an applet), `0x02` a static
    field of a package, `0x03` a field of an applet instance, whose second byte is the id of
    the context owning it. The constructors write a tag into the first bytes of a 32-byte
    buffer and return its length; `can_read` and `can_write` decide access for a context.

    Context numbers (`contextnum.rs`) are not part of this model: the id of the Installer
    context is a parameter `installer`. Context ids are `usize`; the comparison with the
    owner byte casts the id to `u8`, which keeps its low 8 bits (`IdByte`). */
module Filename {
  import opened Wrappers

  const PKG_LIST: bv8 := 0x00
  const CAP: bv8 := 0x01
  const STATIC: bv8 := 0x02
  const APPLET_FIELD: bv8 := 0x03

  /** The length of the buffers the constructors write into. */
  const TAG_BUFFER_LEN: nat := 32

  /** The file a well-formed tag names. */
  datatype Name =
    | PkgListName
    | CapName(pkg: bv8)
    | StaticName(pkg: bv8, id: bv8)
    | AppletFieldName(applet: bv8, pkg: bv8, claz: bv8, field: bv8)

  /** The bytes of the tag naming `n`. */
  function Bytes(n: Name): (t: seq<bv8>)
  {
    match n
    case PkgListName => [PKG_LIST]
    case CapName(pkg) => [CAP, pkg]
    case StaticName(pkg, id) => [STATIC, pkg, id]
    case AppletFieldName(applet, pkg, claz, field) => [APPLET_FIELD, applet, pkg, claz, field]
  }

  /** The file a tag names, when the tag is well formed: the right length for its type. */
  function Parse(tag: seq<bv8>): (r: Option<Name>)
    ensures r.Some? ==> Bytes(r.value) == tag
  {
    if |tag| == 1 && tag[0] == PKG_LIST then Some(PkgListName)
    else if |tag| == 2 && tag[0] == CAP then Some(CapName(tag[1]))
    else if |tag| == 3 && tag[0] == STATIC then Some(StaticName(tag[1], tag[2]))
    else if |tag| == 5 && tag[0] == APPLET_FIELD then
      Some(AppletFieldName(tag[1], tag[2], tag[3], tag[4]))
    else None
  }

  /** Parsing the bytes of a name gives the name back. */
  lemma ParseBytes(n: Name)
    ensures Parse(Bytes(n)) == Some(n)
  {
  }

  /** Different names have different tags. */
  lemma BytesInjective(n: Name, m: Name)
    requires Bytes(n) == Bytes(m)
    ensures n == m
  {
    ParseBytes(n);
    ParseBytes(m);
  }

  // ---------------------------------------------------------------------------------
  // Constructors

  /** The buffer once `fields` are written at its start, and the length written back. */
  function Written(buf: seq<bv8>, fields: seq<bv8>): (r: (seq<bv8>, bv8))
    requires |buf| == TAG_BUFFER_LEN && 0 < |fields| <= 5
    ensures |r.0| == TAG_BUFFER_LEN && r.1 as nat == |fields|
    ensures r.0[..r.1] == fields && r.0[r.1..] == buf[|fields|..]
  {
    (fields + buf[|fields|..], |fields| as bv8)
  }

  /** The tag a constructor leaves in its buffer. */
  function TagOf(r: (seq<bv8>, bv8)): seq<bv8>
    requires r.1 as nat <= |r.0|
  {
    r.0[..r.1]
  }

  /** `package_list`. */
  function PackageList(buf: seq<bv8>): (r: (seq<bv8>, bv8))
    requires |buf| == TAG_BUFFER_LEN
    ensures |r.0| == TAG_BUFFER_LEN && r.1 == 1 && Parse(TagOf(r)) == Some(PkgListName)
    ensures r.0[1..] == buf[1..]
  {
    Written(buf, Bytes(PkgListName))
  }

  /** `cap(pkg)`. */
  function Cap(pkg: bv8, buf: seq<bv8>): (r: (seq<bv8>, bv8))
    requires |buf| == TAG_BUFFER_LEN
    ensures |r.0| == TAG_BUFFER_LEN && r.1 == 2 && Parse(TagOf(r)) == Some(CapName(pkg))
    ensures r.0[2..] == buf[2..]
  {
    Written(buf, Bytes(CapName(pkg)))
  }

  /** `static_field(pkg, static_id)`. */
  function StaticField(pkg: bv8, id: bv8, buf: seq<bv8>): (r: (seq<bv8>, bv8))
    requires |buf| == TAG_BUFFER_LEN
    ensures |r.0| == TAG_BUFFER_LEN && r.1 == 3 && Parse(TagOf(r)) == Some(StaticName(pkg, id))
    ensures r.0[3..] == buf[3..]
  {
    Written(buf, Bytes(StaticName(pkg, id)))
  }

  /** `applet_field(applet, pkg, claz, field)`. */
  function AppletField(applet: bv8, pkg: bv8, claz: bv8, field: bv8, buf: seq<bv8>): (r: (seq<bv8>, bv8))
    requires |buf| == TAG_BUFFER_LEN
    ensures |r.0| == TAG_BUFFER_LEN && r.1 == 5
    ensures Parse(TagOf(r)) == Some(AppletFieldName(applet, pkg, claz, field))
    ensures r.0[5..] == buf[5..]
  {
    Written(buf, Bytes(AppletFieldName(applet, pkg, claz, field)))
  }

  // ---------------------------------------------------------------------------------
  // Access rules

  /** The low byte of a context id: `context.id() as u8`. */
  function IdByte(id: nat): bv8
  {
    (id % 256) as bv8
  }

  /** The bytes `can_read` and `can_write` index exist: the type byte, and the owner byte
      of an applet field (the source panics otherwise). */
  predicate Indexable(tag: seq<bv8>)
  {
    |tag| >= 1 && (tag[0] == APPLET_FIELD ==> |tag| >= 2)
  }

  /** `is_applet`: the tag of a CAP file. */
  predicate IsApplet(tag: seq<bv8>)
  {
    |tag| == 2 && tag[0] == CAP
  }

  /** `can_read(context, tag)`. */
  predicate CanRead(id: nat, tag: seq<bv8>)
    requires Indexable(tag)
  {
    match tag[0]
    case 0x00 => true
    case 0x01 => true
    case 0x02 => true
    case 0x03 => tag[1] == IdByte(id)
    case _ => false
  }

  /** `can_write(context, tag)`. */
  predicate CanWrite(installer: nat, id: nat, tag: seq<bv8>)
    requires Indexable(tag)
  {
    match tag[0]
    case 0x00 => id == installer && |tag| == 1
    case 0x01 => id == installer && |tag| == 2
    case 0x02 => |tag| == 3
    case 0x03 => tag[1] == IdByte(id) && |tag| == 5
    case _ => false
  }

  /** The owner of a name: the context id byte of an applet field; the other names belong
      to no context. */
  function Owner(n: Name): Option<bv8>
  {
    if n.AppletFieldName? then Some(n.applet) else None
  }

  /** Reading by type: a tag of an unknown type is denied, the package list, CAP files and
      static fields are readable by every context, and an applet field only by the context
      whose id byte it carries. */
  lemma ReadRule(id: nat, tag: seq<bv8>)
    requires Indexable(tag)
    ensures tag[0] > APPLET_FIELD ==> !CanRead(id, tag)
    ensures tag[0] < APPLET_FIELD ==> CanRead(id, tag)
    ensures tag[0] == APPLET_FIELD ==> (CanRead(id, tag) <==> tag[1] == IdByte(id))
  {
  }

  /** Every tag some context may write is a well-formed name: writing only ever creates files
      the constructors can name. Which context may write it depends on the name: the package
      list and CAP files only the Installer, static fields any context, an applet field only
      its owner. */
  lemma WritableIsNamed(installer: nat, id: nat, tag: seq<bv8>)
    requires Indexable(tag) && CanWrite(installer, id, tag)
    ensures Parse(tag).Some?
    ensures Parse(tag).value.PkgListName? || Parse(tag).value.CapName? ==> id == installer
    ensures Owner(Parse(tag).value).Some? ==> Owner(Parse(tag).value).value == IdByte(id)
  {
  }

  /** Access to each named file: who may read and write the tag each constructor builds, and
      which of them is an applet. */
  lemma NamedAccess(installer: nat, id: nat, n: Name)
    ensures Indexable(Bytes(n))
    ensures CanRead(id, Bytes(n)) <==> (Owner(n).None? || Owner(n).value == IdByte(id))
    ensures CanWrite(installer, id, Bytes(n)) <==>
              (if n.PkgListName? || n.CapName? then id == installer
               else Owner(n).None? || Owner(n).value == IdByte(id))
    ensures IsApplet(Bytes(n)) <==> n.CapName?
  {
  }

  /** Writing implies reading: no context can write a file it cannot read. */
  lemma WriteImpliesRead(installer: nat, id: nat, tag: seq<bv8>)
    requires Indexable(tag) && CanWrite(installer, id, tag)
    ensures CanRead(id, tag)
  {
  }

  /** Because the owner check compares only the low byte of the context id, contexts 256
      apart share their applet fields. */
  lemma OwnerByteAliases(id: nat, applet: bv8, pkg: bv8, claz: bv8, field: bv8)
    requires IdByte(id) == applet
    ensures CanRead(id + 256, Bytes(AppletFieldName(applet, pkg, claz, field)))
  {
  }
}
