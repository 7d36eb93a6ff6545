/** The binary layout compiler of mkromfs.py: a directory tree becomes an image
    of 16-byte dirents that point to names, file contents and further dirents
    by absolute 32-bit address. */
module RomFs {
  import opened Machine

  newtype Byte = x: int | 0 <= x < 256
  type Bytes = seq<Byte>

  datatype Node = File(name: Bytes, data: Bytes) | Folder(name: Bytes, children: seq<Node>)

  predicate Aligned(n: nat) {
    n % 4 == 0
  }

  lemma {:induction false} AlignedSum(a: nat, b: nat)
    requires Aligned(a) && Aligned(b)
    ensures Aligned(a + b)
  {
  }

  lemma {:induction false} BehindTable(a: nat, n: nat)
    requires Aligned(a)
    ensures Aligned(a + 16 * n)
  {
  }

  function Zeros(n: nat): (z: Bytes)
    ensures |z| == n
  {
    seq(n, _ => 0)
  }

  /** bin_name: at least one NUL, up to a multiple of four. */
  function NameBytes(name: Bytes): Bytes
  {
    name + Zeros(4 - |name| % 4)
  }

  /** Data is padded only when it needs to be. */
  function Padded(data: Bytes): Bytes
  {
    if |data| % 4 != 0 then data + Zeros(4 - |data| % 4) else data
  }

  /** One unsigned int, low byte first. */
  function Word(n: nat): (r: Bytes)
    requires n < WORD
    ensures |r| == 4
  {
    [(n % 256) as Byte, (n / 256 % 256) as Byte, (n / 65536 % 256) as Byte, (n / 16777216) as Byte]
  }

  /** bin_fmt.pack; struct refuses values that do not fit 32 bits. */
  function Pack(tp: nat, name: nat, data: nat, size: nat): (r: Option<Bytes>)
    ensures r.Some? ==> |r.value| == 16
  {
    if tp < WORD && name < WORD && data < WORD && size < WORD
    then Some(Word(tp) + Word(name) + Word(data) + Word(size))
    else None
  }

  function TypeOf(c: Node): nat { if c.File? then 0 else 1 }

  function EntrySize(c: Node): nat { if c.File? then |c.data| else |c.children| }

  /** bin_data of a file or a folder placed at address base. */
  function BinData(c: Node, base: nat): Option<Bytes>
    decreases c, 1
  {
    match c
    case File(_, data) => Some(data)
    case Folder(_, cs) =>
      var items := Items(cs, base + 16 * |cs|);
      if items.None? then None else Some(items.value.0 + items.value.1)
  }

  /** The dirent of one child and its payload: padded name, then padded data. */
  function Item(c: Node, v: nat): (r: Option<(Bytes, Bytes)>)
    ensures r.Some? ==> |r.value.0| == 16
    decreases c, 2
  {
    var name := NameBytes(c.name);
    var data := BinData(c, v + |name|);
    var entry := Pack(TypeOf(c), v, v + |name|, EntrySize(c));
    if data.None? || entry.None? then None else Some((entry.value, name + Padded(data.value)))
  }

  /** Append dirents to dirents and payload to payload. */
  function Join(x: (Bytes, Bytes), y: Option<(Bytes, Bytes)>): Option<(Bytes, Bytes)> {
    if y.None? then None else Some((x.0 + y.value.0, x.1 + y.value.1))
  }

  /** The dirents of cs and their payload, which starts at address v. */
  function Items(cs: seq<Node>, v: nat): Option<(Bytes, Bytes)>
    decreases cs, 0
  {
    if cs == [] then Some(([], []))
    else
      var x := Item(cs[0], v);
      if x.None? then None else Join(x.value, Items(cs[1..], v + |x.value.1|))
  }

  /** get_bin_data. */
  function Image(tree: Node, base: nat): Option<Bytes>
    requires tree.Folder?
  {
    var root := Pack(1, base + 16, base + 20, EntrySize(tree));
    var rest := BinData(tree, base + 20);
    if root.None? || rest.None? then None else Some(root.value + SLASH + rest.value)
  }

  const SLASH: Bytes := ['/' as int as Byte, 0, 0, 0]

  // ------------------------------------------------------ as it is written

  lemma {:induction false} ItemsConcat(a: seq<Node>, b: seq<Node>, v: nat)
    ensures var x := Items(a, v);
      Items(a + b, v) == if x.None? then None else Join(x.value, Items(b, v + |x.value.1|))
    decreases |a|
  {
    hide Item;
    if a == [] {
      assert a + b == b;
      JoinNothing(Items(b, v));
    } else {
      assert (a + b)[0] == a[0] && (a + b)[1..] == a[1..] + b;
      var x := Item(a[0], v);
      if x.Some? {
        var w := v + |x.value.1|;
        ItemsConcat(a[1..], b, w);
        var y := Items(a[1..], w);
        if y.Some? {
          JoinJoin(x.value, y.value, Items(b, w + |y.value.1|));
        }
      }
    }
  }

  lemma {:induction false} JoinNothing(y: Option<(Bytes, Bytes)>)
    ensures Join(([], []), y) == y
  {
    if y.Some? { assert [] + y.value.0 == y.value.0 && [] + y.value.1 == y.value.1; }
  }

  lemma {:induction false} JoinJoin(x: (Bytes, Bytes), y: (Bytes, Bytes), z: Option<(Bytes, Bytes)>)
    ensures Join((x.0 + y.0, x.1 + y.1), z) == if z.None? then None else Join(x, Join(y, z))
  {
    if z.Some? {
      assert (x.0 + y.0) + z.value.0 == x.0 + (y.0 + z.value.0);
      assert (x.1 + y.1) + z.value.1 == x.1 + (y.1 + z.value.1);
    }
  }

  /** One more child behind those already laid out. */
  lemma {:induction false} ItemsSnoc(cs: seq<Node>, i: nat, v: nat)
    requires i < |cs| && Items(cs[..i], v).Some?
    ensures var x := Items(cs[..i], v).value; Items(cs[..i + 1], v) == Join(x, Item(cs[i], v + |x.1|))
  {
    hide Item;
    assert cs[..i + 1] == cs[..i] + [cs[i]];
    ItemsConcat(cs[..i], [cs[i]], v);
    var x := Items(cs[..i], v).value;
    var y := Item(cs[i], v + |x.1|);
    assert [cs[i]][1..] == [];
    if y.Some? {
      assert Items([], v + |x.1| + |y.value.1|) == Some(([], []));
      assert y.value.0 + [] == y.value.0 && y.value.1 + [] == y.value.1;
    }
  }

  lemma {:induction false} ItemsFail(cs: seq<Node>, i: nat, v: nat)
    requires i <= |cs| && Items(cs[..i], v).None?
    ensures Items(cs, v).None?
  {
    assert cs == cs[..i] + cs[i..];
    ItemsConcat(cs[..i], cs[i..], v);
  }

  lemma {:induction false} ItemParts(c: Node, v: nat)
    ensures var name := NameBytes(c.name);
      var data, entry := BinData(c, v + |name|), Pack(TypeOf(c), v, v + |name|, EntrySize(c));
      Item(c, v) == if data.None? || entry.None? then None else Some((entry.value, name + Padded(data.value)))
  {
    hide Pack, Padded, NameBytes, BinData;
  }

  lemma {:induction false} FolderData(c: Node, base: nat)
    requires c.Folder?
    ensures var items := Items(c.children, base + 16 * |c.children|);
      BinData(c, base) == if items.None? then None else Some(items.value.0 + items.value.1)
  {
    hide Items;
  }

  lemma {:induction false} PaddedLength(data: Bytes)
    ensures |Padded(data)| == (|data| + 3) / 4 * 4
  {
  }

  lemma {:induction false} NameAligned(name: Bytes)
    ensures Aligned(|NameBytes(name)|)
  {
  }

  lemma {:induction false} ItemAligned(c: Node, v: nat)
    requires Item(c, v).Some?
    ensures Aligned(|Item(c, v).value.1|)
  {
    ItemParts(c, v);
    hide Item, Pack, Padded, NameBytes, BinData, Aligned;
    var data := BinData(c, v + |NameBytes(c.name)|).value;
    PaddedAligned(data);
    NameAligned(c.name);
    AlignedSum(|NameBytes(c.name)|, |Padded(data)|);
  }

  lemma {:induction false} PaddedAligned(data: Bytes)
    ensures Aligned(|Padded(data)|)
  {
  }

  lemma {:induction false} NoItems(cs: seq<Node>, v: nat)
    ensures Items(cs[..0], v) == Some(([], []))
  {
  }

  /** One turn of Folder.bin_data's loop. */
  lemma {:induction false} NextItem(cs: seq<Node>, i: nat, start: nat, x: (Bytes, Bytes), data: Option<Bytes>, entry: Option<Bytes>)
    requires i < |cs| && Items(cs[..i], start) == Some(x)
    requires var nameAddr := start + |x.1|; var dataAddr := nameAddr + |NameBytes(cs[i].name)|;
      data == BinData(cs[i], dataAddr) && entry == Pack(TypeOf(cs[i]), nameAddr, dataAddr, EntrySize(cs[i]))
    ensures data.None? || entry.None? ==> Items(cs, start).None?
    ensures data.Some? && entry.Some? ==>
      Items(cs[..i + 1], start) == Some((x.0 + entry.value, x.1 + (NameBytes(cs[i].name) + Padded(data.value))))
  {
    hide Item, Items, Pack, Padded, NameBytes, BinData, EntrySize, TypeOf;
    ItemsSnoc(cs, i, start);
    ItemParts(cs[i], start + |x.1|);
    if data.None? || entry.None? {
      ItemsFail(cs, i + 1, start);
    }
  }

  /** Folder.bin_data and File.bin_data: dirents and payload are collected in two
      lists while v_len runs ahead. */
  method Compile(c: Node, base: nat) returns (r: Option<Bytes>)
    ensures r == BinData(c, base)
    decreases c
  {
    if c.File? {
      return Some(c.data);
    }
    hide Item, Items, Pack, Padded, NameBytes, BinData, Zeros, Word, EntrySize, TypeOf, Join;
    var cs := c.children;
    var start := base + 16 * |cs|;
    var vLen := start;
    var dirents: Bytes, payload: Bytes := [], [];
    var i := 0;
    NoItems(cs, start);
    while i < |cs|
      invariant i <= |cs| && vLen == start + |payload|
      invariant Items(cs[..i], start) == Some((dirents, payload))
    {
      var child := cs[i];
      var name := NameBytes(child.name);
      var nameAddr := vLen;
      vLen := vLen + |name|;
      var data := Compile(child, vLen);
      var entry := Pack(TypeOf(child), nameAddr, vLen, EntrySize(child));
      NextItem(cs, i, start, (dirents, payload), data, entry);
      if data.None? || entry.None? {
        FolderData(c, base);
        return None;
      }
      var padded := Padded(data.value);
      vLen := vLen + |padded|;
      dirents := dirents + entry.value;
      payload := payload + (name + padded);
      i := i + 1;
    }
    assert cs[..i] == cs;
    FolderData(c, base);
    return Some(dirents + payload);
  }
}

/** Reading an image back by following its addresses. */
module RomFsReader {
  import opened Machine
  import opened RomFs

  /** The word at offset o. */
  function WordAt(img: Bytes, o: nat): Option<nat> {
    if o + 4 <= |img|
    then Some(img[o] as nat + 256 * img[o + 1] as nat + 65536 * img[o + 2] as nat + 16777216 * img[o + 3] as nat)
    else None
  }

  /** The NUL-terminated string at offset o. */
  function StringAt(img: Bytes, o: nat): Option<Bytes>
    decreases |img| - o
  {
    if o >= |img| then None
    else if img[o] == 0 then Some([])
    else
      var rest := StringAt(img, o + 1);
      if rest.None? then None else Some([img[o]] + rest.value)
  }

  datatype Dirent = Dirent(tp: nat, name: nat, data: nat, size: nat)

  function DirentAt(img: Bytes, o: nat): Option<Dirent> {
    var t, n, d, s := WordAt(img, o), WordAt(img, o + 4), WordAt(img, o + 8), WordAt(img, o + 12);
    if t.Some? && n.Some? && d.Some? && s.Some? then Some(Dirent(t.value, n.value, d.value, s.value)) else None
  }

  /** Rebuild the node whose dirent is at address a of an image placed at base.
      A strict reader rejects addresses that are not word-aligned. */
  function ReadNode(img: Bytes, base: nat, a: nat, strict: bool): Option<Node>
    decreases base + |img| - a, 0
  {
    if a < base then None
    else
      var e := DirentAt(img, a - base);
      if e.None? || e.value.name < base || e.value.data <= a || e.value.data > base + |img| then None
      else if strict && !(Aligned(e.value.name) && Aligned(e.value.data)) then None
      else
        var name := StringAt(img, e.value.name - base);
        var o := e.value.data - base;
        if name.None? then None
        else if e.value.tp == 0 then
          if o + e.value.size <= |img| then Some(File(name.value, img[o..o + e.value.size])) else None
        else if e.value.tp == 1 then
          var cs := ReadTable(img, base, e.value.data, e.value.size, strict);
          if cs.None? then None else Some(Folder(name.value, cs.value))
        else None
  }

  /** The n nodes whose dirents start at address a. */
  function ReadTable(img: Bytes, base: nat, a: nat, n: nat, strict: bool): Option<seq<Node>>
    decreases base + |img| - a, 1
  {
    if n == 0 then Some([])
    else if a < base || a + 16 > base + |img| then None
    else
      var c := ReadNode(img, base, a, strict);
      var cs := ReadTable(img, base, a + 16, n - 1, strict);
      if c.None? || cs.None? then None else Some([c.value] + cs.value)
  }

  // ------------------------------------------------------------ bytes in place

  /** The image holds b at offset o. */
  ghost predicate At(img: Bytes, o: nat, b: Bytes) {
    o + |b| <= |img| && forall i :: 0 <= i < |b| ==> img[o + i] == b[i]
  }

  lemma {:induction false} AtSplit(img: Bytes, o: nat, a: Bytes, b: Bytes)
    requires At(img, o, a + b)
    ensures At(img, o, a) && At(img, o + |a|, b)
  {
    forall i | 0 <= i < |a| ensures img[o + i] == a[i] { assert (a + b)[i] == a[i]; }
    forall i | 0 <= i < |b| ensures img[o + |a| + i] == b[i] { assert (a + b)[|a| + i] == b[i]; }
  }

  lemma {:induction false} Digits(n: nat)
    requires n < WORD
    ensures n == n % 256 + 256 * (n / 256 % 256) + 65536 * (n / 65536 % 256) + 16777216 * (n / 16777216)
  {
    assert n / 256 / 256 == n / 65536;
    assert n / 65536 / 256 == n / 16777216;
  }

  lemma {:induction false} WordRead(img: Bytes, o: nat, n: nat)
    requires n < WORD && At(img, o, Word(n))
    ensures WordAt(img, o) == Some(n)
  {
    Digits(n);
    var w := Word(n);
    assert img[o + 0] == w[0] && img[o + 1] == w[1] && img[o + 2] == w[2] && img[o + 3] == w[3];
  }

  lemma {:induction false} DirentRead(img: Bytes, o: nat, tp: nat, name: nat, data: nat, size: nat)
    requires Pack(tp, name, data, size).Some? && At(img, o, Pack(tp, name, data, size).value)
    ensures DirentAt(img, o) == Some(Dirent(tp, name, data, size))
  {
    AtSplit(img, o, Word(tp) + Word(name) + Word(data), Word(size));
    AtSplit(img, o, Word(tp) + Word(name), Word(data));
    AtSplit(img, o, Word(tp), Word(name));
    hide At, Word;
    WordRead(img, o, tp);
    WordRead(img, o + 4, name);
    WordRead(img, o + 8, data);
    WordRead(img, o + 12, size);
  }

  ghost predicate NulFree(s: Bytes) {
    forall i :: 0 <= i < |s| ==> s[i] != 0
  }

  lemma {:induction false} NameRead(img: Bytes, o: nat, s: Bytes)
    requires NulFree(s) && At(img, o, s) && o + |s| < |img| && img[o + |s|] == 0
    ensures StringAt(img, o) == Some(s)
    decreases |s|
  {
    if s == [] {
      assert img[o] == 0;
    } else {
      assert img[o + 0] == s[0];
      assert At(img, o + 1, s[1..]) by {
        forall i | 0 <= i < |s[1..]| ensures img[o + 1 + i] == s[1..][i] { assert img[o + (i + 1)] == s[i + 1]; }
      }
      NameRead(img, o + 1, s[1..]);
      assert [s[0]] + s[1..] == s;
    }
  }

  lemma {:induction false} BinNameRead(img: Bytes, o: nat, name: Bytes)
    requires NulFree(name) && At(img, o, NameBytes(name))
    ensures StringAt(img, o) == Some(name)
  {
    AtSplit(img, o, name, Zeros(4 - |name| % 4));
    assert img[o + |name| + 0] == Zeros(4 - |name| % 4)[0];
    NameRead(img, o, name);
  }

  lemma {:induction false} PaddedRead(img: Bytes, o: nat, data: Bytes)
    requires At(img, o, Padded(data))
    ensures At(img, o, data)
  {
    if |data| % 4 != 0 { AtSplit(img, o, data, Zeros(4 - |data| % 4)); }
  }

  // ---------------------------------------------------------------- round trip

  /** No name contains a NUL. */
  ghost predicate Named(c: Node)
    decreases c, 1
  {
    NulFree(c.name) && (c.Folder? ==> AllNamed(c.children))
  }

  ghost predicate AllNamed(cs: seq<Node>)
    decreases cs, 0
  {
    cs == [] || (Named(cs[0]) && AllNamed(cs[1..]))
  }

  /** A node whose dirent, name and data are in place is read back. */
  lemma {:induction false} NodeRead(img: Bytes, base: nat, c: Node, a: nat, name: nat, data: nat, strict: bool)
    requires Named(c) && base <= a < data && base <= name && (strict ==> Aligned(name) && Aligned(data))
    requires Pack(TypeOf(c), name, data, EntrySize(c)).Some?
    requires At(img, a - base, Pack(TypeOf(c), name, data, EntrySize(c)).value)
    requires At(img, name - base, NameBytes(c.name))
    requires BinData(c, data).Some? && At(img, data - base, BinData(c, data).value)
    ensures ReadNode(img, base, a, strict) == Some(c)
    decreases c, 1
  {
    hide At, Pack, NameBytes, BinData, DirentAt, StringAt, ReadTable, AllNamed, NulFree, Aligned;
    DirentRead(img, a - base, TypeOf(c), name, data, EntrySize(c));
    BinNameRead(img, name - base, c.name);
    InImage(img, data - base, BinData(c, data).value);
    if c.File? {
      FileData(c, data);
      DataRead(img, data - base, c.data);
    } else {
      FolderRead(img, base, c, data, strict);
    }
  }

  lemma {:induction false} InImage(img: Bytes, o: nat, b: Bytes)
    requires At(img, o, b)
    ensures o + |b| <= |img|
  {
  }

  lemma {:induction false} FileData(c: Node, base: nat)
    requires c.File?
    ensures BinData(c, base) == Some(c.data)
  {
  }

  lemma {:induction false} DataRead(img: Bytes, o: nat, data: Bytes)
    requires At(img, o, data)
    ensures o + |data| <= |img| && img[o..o + |data|] == data
  {
  }

  lemma {:induction false} FolderRead(img: Bytes, base: nat, c: Node, data: nat, strict: bool)
    requires Named(c) && c.Folder? && base <= data && (strict ==> Aligned(data))
    requires BinData(c, data).Some? && At(img, data - base, BinData(c, data).value)
    ensures ReadTable(img, base, data, |c.children|, strict) == Some(c.children)
    decreases c, 0
  {
    FolderData(c, data);
    var v := data + 16 * |c.children|;
    hide BinData, Items, At, ReadTable, AllNamed, Aligned;
    if strict { BehindTable(data, |c.children|); }
    var items := Items(c.children, v).value;
    ItemsLength(c.children, v);
    AtSplit(img, data - base, items.0, items.1);
    TableRead(img, base, c.children, data, v, strict);
  }

  lemma {:induction false} ItemsLength(cs: seq<Node>, v: nat)
    requires Items(cs, v).Some?
    ensures |Items(cs, v).value.0| == 16 * |cs|
    decreases |cs|
  {
    hide Item;
    if cs != [] {
      ItemsLength(cs[1..], v + |Item(cs[0], v).value.1|);
    }
  }

  /** What one item puts where. */
  lemma {:induction false} ItemRead(img: Bytes, base: nat, c: Node, a: nat, v: nat, strict: bool)
    requires Named(c) && base <= a < v && (strict ==> Aligned(v))
    requires Item(c, v).Some? && At(img, a - base, Item(c, v).value.0) && At(img, v - base, Item(c, v).value.1)
    ensures ReadNode(img, base, a, strict) == Some(c)
    decreases c, 2
  {
    var name := NameBytes(c.name);
    NameAligned(c.name);
    ItemParts(c, v);
    hide Item, At, Pack, BinData, ReadNode, Padded, NameBytes, Aligned;
    if strict { AlignedSum(v, |name|); }
    var data := BinData(c, v + |name|).value;
    AtSplit(img, v - base, name, Padded(data));
    PaddedRead(img, v + |name| - base, data);
    NodeRead(img, base, c, a, v, v + |name|, strict);
  }

  lemma {:induction false} TableRead(img: Bytes, base: nat, cs: seq<Node>, a: nat, v: nat, strict: bool)
    requires AllNamed(cs) && base <= a && a + 16 * |cs| <= v && (strict ==> Aligned(v))
    requires Items(cs, v).Some? && At(img, a - base, Items(cs, v).value.0) && At(img, v - base, Items(cs, v).value.1)
    ensures ReadTable(img, base, a, |cs|, strict) == Some(cs)
    decreases cs, 0
  {
    hide Item, ReadNode, Aligned, At, Named;
    if cs != [] {
      var x := Item(cs[0], v).value;
      var w := v + |x.1|;
      var rest := Items(cs[1..], w).value;
      AtSplit(img, a - base, x.0, rest.0);
      AtSplit(img, v - base, x.1, rest.1);
      ItemRead(img, base, cs[0], a, v, strict);
      ItemAligned(cs[0], v);
      if strict { AlignedSum(v, |x.1|); }
      TableRead(img, base, cs[1..], a + 16, w, strict);
      assert [cs[0]] + cs[1..] == cs;
    }
  }

  const ROOT_NAME: Bytes := ['/' as int as Byte]

  /** Following addresses from the root dirent rebuilds the tree exactly, and when
      the image is placed word-aligned every address on the way is aligned. */
  lemma {:induction false} ReadsBack(tree: Node, base: nat)
    requires tree.Folder? && AllNamed(tree.children) && Image(tree, base).Some?
    ensures ReadNode(Image(tree, base).value, base, base, Aligned(base)) == Some(Folder(ROOT_NAME, tree.children))
  {
    var img := Image(tree, base).value;
    var c := Folder(ROOT_NAME, tree.children);
    ImageParts(tree, base);
    RootName();
    if Aligned(base) { AlignedSum(base, 16); AlignedSum(base, 20); }
    hide At, Pack, NameBytes, BinData, ReadNode, Image, NulFree, Aligned;
    assert Composed(img, c, base);
    NodeRead(img, base, c, base, base + 16, base + 20, Aligned(base));
  }

  lemma {:induction false} RootName()
    ensures NameBytes(ROOT_NAME) == SLASH && NulFree(ROOT_NAME)
  {
  }

  /** The root's dirent, its name and the contents of the root folder c are in place. */
  ghost predicate Composed(img: Bytes, c: Node, base: nat) {
    var root, rest := Pack(TypeOf(c), base + 16, base + 20, EntrySize(c)), BinData(c, base + 20);
    root.Some? && rest.Some? && At(img, 0, root.value) && At(img, 16, SLASH) && At(img, 20, rest.value)
  }

  lemma {:induction false} ImageParts(tree: Node, base: nat)
    requires tree.Folder? && Image(tree, base).Some?
    ensures Composed(Image(tree, base).value, Folder(ROOT_NAME, tree.children), base)
  {
    hide BinData, Items, Pack, At;
    var c := Folder(ROOT_NAME, tree.children);
    FolderData(tree, base + 20);
    FolderData(c, base + 20);
    ThreeParts(Pack(1, base + 16, base + 20, |tree.children|).value, SLASH, BinData(tree, base + 20).value);
  }

  lemma {:induction false} ThreeParts(a: Bytes, b: Bytes, c: Bytes)
    ensures At(a + b + c, 0, a) && At(a + b + c, |a|, b) && At(a + b + c, |a| + |b|, c)
  {
    assert At((a + b) + c, 0, (a + b) + c);
    AtSplit((a + b) + c, 0, a + b, c);
    AtSplit((a + b) + c, 0, a, b);
  }

  /** Two trees with the same image at the same address have the same contents. */
  lemma {:induction false} ImageInjective(t1: Node, t2: Node, base: nat)
    requires t1.Folder? && t2.Folder? && AllNamed(t1.children) && AllNamed(t2.children)
    requires Image(t1, base).Some? && Image(t1, base) == Image(t2, base)
    ensures t1.children == t2.children
  {
    ReadsBack(t1, base);
    ReadsBack(t2, base);
  }

  // ----------------------------------------------------------- when it fits

  /** The length of a node's data, and of the payload of one node and of a list. */
  function Length(c: Node): nat
    decreases c, 1
  {
    if c.File? then |c.data| else 16 * |c.children| + Payload(c.children)
  }

  function Load(c: Node): nat
    decreases c, 2
  {
    |NameBytes(c.name)| + (Length(c) + 3) / 4 * 4
  }

  function Payload(cs: seq<Node>): nat
    decreases cs, 0
  {
    if cs == [] then 0 else Load(cs[0]) + Payload(cs[1..])
  }

  lemma {:induction false} DataFits(c: Node, base: nat)
    requires base + Length(c) < WORD
    ensures BinData(c, base).Some? && |BinData(c, base).value| == Length(c)
    decreases c, 1
  {
    hide Item, Load;
    if c.Folder? {
      ItemsFit(c.children, base + 16 * |c.children|);
      ItemsLength(c.children, base + 16 * |c.children|);
    }
  }

  lemma {:induction false} ItemFits(c: Node, v: nat)
    requires v + Load(c) < WORD
    ensures Item(c, v).Some? && |Item(c, v).value.1| == Load(c)
    decreases c, 2
  {
    var name := NameBytes(c.name);
    DataFits(c, v + |name|);
    assert EntrySize(c) <= Length(c);
    ItemParts(c, v);
    PaddedLength(BinData(c, v + |name|).value);
    hide BinData, Length, NameBytes, Item, Padded;
  }

  lemma {:induction false} ItemsFit(cs: seq<Node>, v: nat)
    requires v + Payload(cs) < WORD
    ensures Items(cs, v).Some? && |Items(cs, v).value.1| == Payload(cs)
    decreases cs, 0
  {
    hide Item, Load;
    if cs != [] {
      ItemFits(cs[0], v);
      ItemsFit(cs[1..], v + Load(cs[0]));
    }
  }

  /** Every tree whose image ends below 2^32 has an image, of the expected length. */
  lemma {:induction false} ImageFits(tree: Node, base: nat)
    requires tree.Folder? && base + 20 + Length(tree) < WORD
    ensures Image(tree, base).Some? && |Image(tree, base).value| == 20 + Length(tree)
  {
    DataFits(tree, base + 20);
  }
}
