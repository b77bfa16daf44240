/**
 Directory entries as the library hands them out, built from a parsed record and its system use
 entries.
 */
module DirectoryEntry {
  import opened Base
  import opened Susp
  import opened Record
  import opened RockRidge
  import opened Identifier

  datatype Meta = Meta(
    altName: Option<Text>,
    target: Option<Text>,
    mode: Option<u32>,
    inode: Option<u32>,
    extensions: seq<Extension>,
    relocated: bool)

  datatype Node =
    | Directory(header: Header, name: Text, meta: Meta)
    | File(header: Header, name: Text, meta: Meta, version: u16)
    | Symlink(header: Header, name: Text, meta: Meta, version: u16)

  function FirstAttributes(es: seq<Entry>): Option<Entry> {
    if es == [] then None else if es[0].Attributes? then Some(es[0]) else FirstAttributes(es[1..])
  }

  function FirstExtensions(es: seq<Entry>): seq<Extension> {
    if es == [] then [] else if es[0].Extensions? then es[0].extensions else FirstExtensions(es[1..])
  }

  function FirstChild(es: seq<Entry>): Option<u32> {
    if es == [] then None else if es[0].Child? then Some(es[0].lba) else FirstChild(es[1..])
  }

  function MetaOf(es: seq<Entry>, target: Option<Text>): Meta {
    var px := FirstAttributes(es);
    var has := px.Some? && px.value.Attributes?;
    Meta(AltName(es), target,
         if has then Some(px.value.mode) else None,
         if has then px.value.inode else None,
         FirstExtensions(es), Relocated in es)
  }

  /** `ISODirectory::new` */
  function NewDirectory(h: Header, m: Meta, id: Text): Node {
    var name := if m.altName.Some? then m.altName.value else id;
    Directory(h, if name == [0] then [DOT] else if name == [1] then [DOT, DOT] else name, m)
  }

  /** `PosixFileMode::TYPE_SYMLINK`: bits 13 and 15 */
  predicate IsSymlinkMode(m: Meta) {
    m.mode.Some? && Bit(m.mode.value, 0x2000) && Bit(m.mode.value, 0x8000)
  }

  /** `DirectoryEntry::new` */
  function NewNode(h: Header, m: Meta, id: Text): Result<Node> {
    if h.IsDirectory() then Ok(NewDirectory(h, m, id))
    else
      match SplitVersion(if m.altName.Some? then m.altName.value else id)
      case Err(e) => Err(e)
      case Ok((name, version)) =>
        if IsSymlinkMode(m) then Ok(Symlink(h, name, m, version)) else Ok(File(h, name, m, version))
  }

  /**
   * A child link turns a dummy file into the directory it points to, taken to be one block long;
   * on any other entry it is `unimplemented!`.
   */
  function FollowChild(n: Node, child: Option<u32>): Result<Node> {
    if child.None? then Ok(n)
    else if !n.File? then Err(Panic)
    else
      var flags := if n.header.IsDirectory() then n.header.flags else n.header.flags + 2;
      Ok(NewDirectory(n.header.(flags := flags, location := child.value, size := 2048), n.meta, n.name))
  }

  /** The tail of `read_entry_at`, once all system use entries are collected. */
  function BuildNode(h: Header, id: Text, es: seq<Entry>): Result<Node> {
    match LinkTarget(es)
    case Err(e) => Err(e)
    case Ok(target) =>
      match NewNode(h, MetaOf(es, target), id)
      case Err(e) => Err(e)
      case Ok(n) => FollowChild(n, FirstChild(es))
  }
}
