/**
 From the records of a directory to what a client gets: which record a name finds, and which bytes of
 the image are read from a file that was looked up and opened.
 */
module Access {
  import opened Base
  import opened Strings
  import opened Susp
  import opened Record
  import opened Identifier
  import opened RockRidge
  import opened DirectoryEntry
  import opened Continuation
  import opened Walk
  import opened Directory
  import opened Packing
  import opened Lookup
  import opened Paths
  import opened Files
  import opened ServerState
  import opened Protocol
  import opened Chains
  import opened Rebinding

  // ---- finding a record by its name ----

  /** The entry is not an associated file (flag bit 2) and has this name, up to ASCII case. */
  predicate GoesBy(n: Node, name: Text) {
    && n.header.flags / 4 % 2 == 0
    && |n.name| == |name| && forall k :: 0 <= k < |name| ==> SameLetter(n.name[k], name[k])
  }

  /** The record is the first one of the directory with this name, and it and all before it can be read. */
  ghost predicate FirstNamed(image: seq<byte>, enc: Encoding, rs: seq<Raw>, k: nat, name: Text, node: Node)
    requires forall r :: r in rs ==> r.Valid()
  {
    && k < |rs| && RawMeaning(image, enc, rs[k]) == Some(node) && GoesBy(node, name)
    && forall j :: 0 <= j < k ==>
         RawMeaning(image, enc, rs[j]).Some? && !GoesBy(RawMeaning(image, enc, rs[j]).value, name)
  }

  lemma GoesByMatches(n: Node, name: Text)
    ensures GoesBy(n, name) <==> Matches(n, name)
  {
    SameUpToCase(n.name, name);
    assert n.header.IsAssociated() <==> (n.header.flags as int) / 4 % 2 == 1;
  }

  lemma {:induction false} ReadableTo(image: seq<byte>, enc: Encoding, rs: seq<Raw>, k: nat)
    requires (forall r :: r in rs ==> r.Valid()) && k < |rs|
    requires forall j :: 0 <= j <= k ==> RawMeaning(image, enc, rs[j]).Some?
    ensures |Readable(image, enc, rs)| > k
    ensures forall j :: 0 <= j <= k ==> Readable(image, enc, rs)[j] == RawMeaning(image, enc, rs[j]).value
    decreases k
  {
    hide RawMeaning;
    var nodes := Readable(image, enc, rs);
    if k > 0 {
      assert forall j :: 0 <= j <= k - 1 ==> rs[1..][j] == rs[j + 1];
      ReadableTo(image, enc, rs[1..], k - 1);
      assert forall j :: 1 <= j <= k ==> nodes[j] == nodes[1..][j - 1];
    }
  }

  lemma {:induction false} PickedAt(items: seq<Item>, complete: bool, name: Text, k: nat)
    requires k < |Nodes(items)| && Matches(Nodes(items)[k], name)
    requires forall j :: 0 <= j < k ==> !Matches(Nodes(items)[j], name)
    ensures Pick(items, complete, name) == Found(Nodes(items)[k])
    decreases k
  {
    hide Matches;
    var nodes := Nodes(items);
    assert nodes[0] == items[0].node && nodes[1..] == Nodes(items[1..]);
    if k > 0 {
      assert forall j :: 0 <= j < k - 1 ==> nodes[1..][j] == nodes[j + 1];
      PickedAt(items[1..], complete, name, k - 1);
    }
  }

  /** A name finds the first record of the directory that goes by it. */
  lemma NameFindsRecord(image: seq<byte>, dir: Header, blocks: seq<seq<Raw>>, name: Text, k: nat, node: Node)
    requires Packed(image, dir, blocks)
    ensures forall r :: r in Flatten(blocks) ==> r.Valid()
    ensures FirstNamed(image, dir.encoding, Flatten(blocks), k, name, node) ==> Find(image, dir, name) == Found(node)
  {
    hide EntryAt, RawMeaning, Listing, Complete, Nodes, Pick, Packed, Readable, Matches, GoesBy;
    DirectoryRoundTrip(image, dir, blocks);
    var rs := Flatten(blocks);
    if FirstNamed(image, dir.encoding, rs, k, name, node) {
      ReadableTo(image, dir.encoding, rs, k);
      var items := Listing(Entries(image, dir), Limit(dir), 0);
      forall j | 0 <= j <= k
        ensures GoesBy(Nodes(items)[j], name) <==> Matches(Nodes(items)[j], name)
      {
        GoesByMatches(Nodes(items)[j], name);
      }
      PickedAt(items, Complete(Entries(image, dir), Limit(dir), 0), name, k);
    }
  }

  /** The names lead from an entry to another one, each found in the records of the packed directory before it. */
  ghost predicate LeadTo(image: seq<byte>, node: Node, names: seq<Text>, end: Node)
    decreases names
  {
    if names == [] then node == end
    else
      && node.Directory? && IsName(names[0])
      && exists blocks, k, child :: LeadsToChild(image, node.header, blocks, names[0], k, child)
                                    && LeadTo(image, child, names[1..], end)
  }

  ghost predicate LeadsToChild(image: seq<byte>, dir: Header, blocks: seq<seq<Raw>>, name: Text, k: nat, child: Node) {
    && Packed(image, dir, blocks) && (forall r :: r in Flatten(blocks) ==> r.Valid())
    && FirstNamed(image, dir.encoding, Flatten(blocks), k, name, child)
  }

  lemma {:induction false} NamesResolve(image: seq<byte>, node: Node, names: seq<Text>, end: Node)
    requires LeadTo(image, node, names, end)
    ensures Resolve(image, node, names) == Found(end) && forall s :: s in names ==> IsName(s)
    decreases names
  {
    hide Find, LeadsToChild, IsName;
    if names != [] {
      var blocks, k, child :| LeadsToChild(image, node.header, blocks, names[0], k, child)
                              && LeadTo(image, child, names[1..], end);
      ChildFound(image, node.header, blocks, names[0], k, child);
      NamesResolve(image, child, names[1..], end);
      assert names == [names[0]] + names[1..];
    }
  }

  lemma ChildFound(image: seq<byte>, dir: Header, blocks: seq<seq<Raw>>, name: Text, k: nat, child: Node)
    requires LeadsToChild(image, dir, blocks, name, k, child)
    ensures Find(image, dir, name) == Found(child)
  {
    hide Find, Packed, FirstNamed, Flatten;
    NameFindsRecord(image, dir, blocks, name, k, child);
  }

  /** A path is found by the names it is made of, whatever slashes are in front of it and behind it. */
  lemma PathFindsRecord(image: seq<byte>, node: Node, names: seq<Text>, end: Node)
    requires LeadTo(image, node, names, end)
    ensures Resolve(image, node, Segments(PathOf(names))) == Found(end)
    ensures Resolve(image, node, Segments([47] + PathOf(names))) == Found(end)
    ensures Resolve(image, node, Segments(PathOf(names) + [47])) == Found(end)
  {
    hide Resolve, Segments, LeadTo;
    NamesResolve(image, node, names, end);
    PathRoundTrip(names);
  }

  // ---- reading the file that was found ----

  lemma FileKeepsHeader(h: Header, id: Text, es: seq<Entry>)
    ensures BuildNode(h, id, es).Ok? && BuildNode(h, id, es).value.File? ==> BuildNode(h, id, es).value.header == h
  {
    hide AltName, LinkTarget, SplitVersion, MetaOf, FirstChild, IsSymlinkMode;
  }

  /** A file lies where its record says, in the size that it says. */
  lemma FileLiesThere(image: seq<byte>, enc: Encoding, r: Raw, node: Node)
    requires r.Valid() && RawMeaning(image, enc, r) == Some(node) && node.File?
    ensures node.header.location == r.location && node.header.size == r.size
  {
    hide DecodeIdentifier, ParseSystemUse, BuildNode, Collected, Others, Inline, AreaEntries;
    var p := Assemble(r.HeaderIn(enc), r.id, r.use, []).value;
    var all := After(Others(InlineEntries(p)), Collected(Reading(image), Inline(InlineEntries(p))));
    FileKeepsHeader(p.header, p.identifier, all.value);
  }

  /** The image's bytes from the place and offset on, as many as a file of that size has there and are asked for */
  ghost predicate HasBytes(image: seq<byte>, location: nat, fileSize: nat, offset: nat, size: nat, bytes: seq<byte>) {
    && |bytes| == (if offset >= fileSize then 0 else if size <= fileSize - offset then size else fileSize - offset)
    && forall x :: 0 <= x < |bytes| && 2048 * location + offset + x < |image| ==>
         bytes[x] == image[2048 * location + offset + x]
  }

  /** A file that was opened under a handle, and read under it later, whatever came between */
  lemma ReadWhatIsOpen(w: World, states: seq<State>, requests: seq<Request>, replies: seq<Reply>, j: nat, k: nat)
    requires IsRun(w, states, requests, replies) && w.trusty && j < k < |requests|
    requires requests[j].OpenFile? && replies[j].Opened?
    requires requests[k].ReadFile? && requests[k].fh == replies[j].fh && replies[k].Data?
    ensures requests[j].ino in states[j].inodes && requests[k].offset >= 0
    ensures var node, read := states[j].inodes[requests[j].ino], requests[k];
            && node.File?
            && HasBytes(w.image, node.header.location, node.header.size, read.offset, read.size, replies[k].bytes)
  {
    hide Inv;
    var ino, fh := requests[j].ino, replies[j].fh;
    assert Replies(w, states[j], requests[j], replies[j], states[j + 1]);
    assert Replies(w, states[k], requests[k], replies[k], states[k + 1]);
    LiveNumbersKeepMeaning(w, states, requests, replies, j + 1, k, fh);
  }

  /**
   * Whatever requests come between: what is read under the handle that the inode was opened under that the
   * lookup of a name in a packed directory has given, are the bytes at the place and in the size that the
   * first record of that name says. So it is with generated numbers, and with numbers from the image that
   * identify its files.
   */
  lemma ReadsWhatTheRecordSays(
      w: World, root: Node, states: seq<State>, requests: seq<Request>, replies: seq<Reply>, i: nat, j: nat, k: nat,
      dir: Header, blocks: seq<seq<Raw>>, m: nat, node: Node)
    requires IsRun(w, states, requests, replies) && w.trusty && i < j < k < |requests|
    requires requests[i].LookupName? && replies[i].Entry?
    requires requests[j] == OpenFile(replies[i].ino) && replies[j].Opened?
    requires requests[k].ReadFile? && requests[k].fh == replies[j].fh && replies[k].Data?
    requires requests[i].parent in states[i].inodes && states[i].inodes[requests[i].parent].header == dir
    requires Packed(w.image, dir, blocks) && forall r :: r in Flatten(blocks) ==> r.Valid()
    requires FirstNamed(w.image, dir.encoding, Flatten(blocks), m, requests[i].name, node) && node.File?
    requires w.generates || (NumbersIdentify(w, root) && states[0] == FirstState(root) && NoPanic(replies))
    ensures var r, read := Flatten(blocks)[m], requests[k];
            && replies[i].node == node && read.offset >= 0
            && HasBytes(w.image, r.location, r.size, read.offset, read.size, replies[k].bytes)
  {
    hide Inv, Replies, HasBytes, FirstNamed, Packed, Find, Flatten, FirstState, Rebinds;
    var ino := replies[i].ino;
    NameFindsRecord(w.image, dir, blocks, requests[i].name, m, node);
    LookedUp(w, states[i], requests[i], replies[i], states[i + 1], node);
    NamedFile(w.image, dir.encoding, Flatten(blocks), m, requests[i].name, node);
    ReadWhatIsOpen(w, states, requests, replies, j, k);
    if w.generates {
      LiveNumbersKeepMeaning(w, states, requests, replies, i + 1, j, ino);
    } else {
      SerialsSuffice(w, root, states, requests, replies, i + 1, j);
      SameContent(states[i + 1], states[j], ino);
    }
  }

  lemma NamedFile(image: seq<byte>, enc: Encoding, rs: seq<Raw>, m: nat, name: Text, node: Node)
    requires (forall r :: r in rs ==> r.Valid()) && FirstNamed(image, enc, rs, m, name, node) && node.File?
    ensures m < |rs| && node.header.location == rs[m].location && node.header.size == rs[m].size
  {
    hide RawMeaning, GoesBy;
    FileLiesThere(image, enc, rs[m], node);
  }

  lemma LookedUp(w: World, s: State, request: Request, reply: Reply, s': State, node: Node)
    requires request.LookupName? && reply.Entry? && Replies(w, s, request, reply, s')
    requires request.parent in s.inodes && Find(w.image, s.inodes[request.parent].header, request.name) == Found(node)
    ensures reply.node == node && reply.ino in s'.inodes && s'.inodes[reply.ino] == node
  {
    hide Find;
  }

  lemma SameContent(s: State, s': State, ino: nat)
    requires !Rebinds(s, s') && ino in s.inodes && ino in s'.inodes && s.inodes[ino].File? && s'.inodes[ino].File?
    ensures s'.inodes[ino].header.location == s.inodes[ino].header.location
    ensures s'.inodes[ino].header.size == s.inodes[ino].header.size
  {
    assert ContentOf(s.inodes[ino]) == ContentOf(s'.inodes[ino]);
  }
}
