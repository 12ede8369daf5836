/** Books as written into an archive, and read back from it. */
module Books {
  import opened Wrappers
  import opened XmlTags
  import opened Attributes
  import opened Documents
  import opened Epub
  import Entities
  import Paths

  /** A manifest item. Its file lies `up` directories above the package document and
      then `down`; `reference` is how that is encoded, `more` are further attributes. */
  datatype BookItem = BookItem(
    id: string, up: nat, down: seq<string>, reference: seq<Paths.Written>, mediaType: string, more: seq<Attr>)

  /** A package document in the directory `dirs`, what it lists and its reading order. */
  datatype Book = Book(dirs: seq<string>, file: string, items: seq<BookItem>, spine: seq<string>)

  predicate AreNames(names: seq<string>) { forall c :: c in names ==> Paths.IsName(c) }

  /** `ws` encodes the reference that climbs `up` directories and goes on to `down`. */
  predicate Refers(ws: seq<Paths.Written>, up: nat, down: seq<string>)
  {
    && down != [] && AreNames(down)
    && (forall w :: w in ws ==> Paths.ValidWritten(w))
    && Paths.Meant(ws) == Paths.Rows(Paths.Dots(up) + down) && Paths.Acceptable(Paths.Meant(ws))
  }

  predicate ValidBookItem(item: BookItem, depth: nat)
  {
    item.id != "" && item.up <= depth && Refers(item.reference, item.up, item.down)
  }

  predicate ValidBook(b: Book)
  {
    && AreNames(b.dirs) && Paths.IsName(b.file)
    && (forall i :: 0 <= i < |b.items| ==> ValidBookItem(b.items[i], |b.dirs|))
    && (forall id :: id in b.spine ==> ItemOf(b.items, id).Some?)
  }

  function PackageIn(b: Book): string { Paths.Rows(b.dirs + [b.file]) }

  function PathOf(dirs: seq<string>, item: BookItem): string
  {
    Paths.Rows((if item.up <= |dirs| then dirs[..|dirs| - item.up] else []) + item.down)
  }

  /** The item of an id: the first, if there are several. */
  function ItemOf(items: seq<BookItem>, id: string): Option<BookItem>
  {
    if items == [] then None else if items[0].id == id then Some(items[0]) else ItemOf(items[1..], id)
  }

  /** The chapter of one id of the spine. */
  function ChapterOf(b: Book, id: string): seq<Chapter>
  {
    var item := ItemOf(b.items, id);
    if item.Some? && IsHtml(item.value.mediaType) then [Chapter(id, PathOf(b.dirs, item.value))] else []
  }

  /** The chapters of a book: its spine, without what is not HTML. */
  function ChaptersOf(b: Book, n: nat): seq<Chapter>
    requires n <= |b.spine|
  {
    if n == 0 then [] else ChaptersOf(b, n - 1) + ChapterOf(b, b.spine[n - 1])
  }

  /** The attributes of an element tell an item: among any others, in any order and
      however escaped, they have its id, its reference and its type. */
  predicate TellsItem(pairs: seq<Pair>, item: BookItem)
  {
    && Lookup(pairs, "id") == Some(item.id)
    && Lookup(pairs, "href") == Some(Paths.Encoded(item.reference))
    && Lookup(pairs, "media-type") == Some(item.mediaType)
  }

  ghost predicate TellItems(elements: seq<seq<Pair>>, items: seq<BookItem>)
  {
    |elements| == |items| && forall k :: 0 <= k < |items| ==> TellsItem(elements[k], items[k])
  }

  ghost predicate TellSpine(elements: seq<seq<Pair>>, spine: seq<string>)
  {
    |elements| == |spine| && forall k :: 0 <= k < |spine| ==> Lookup(elements[k], "idref") == Some(spine[k])
  }

  /** An archive whose container names the package and whose package lists the book,
      with any other text, comments, markup, elements and attributes around. */
  ghost predicate Holds(files: Archive, b: Book, root: seq<Paths.Written>, container: seq<Item>, package: seq<Item>)
  {
    && Refers(root, 0, b.dirs + [b.file])
    && (forall item :: item in container ==> ValidItem(item)) && (forall item :: item in package ==> ValidItem(item))
    && CONTAINER_PATH in files && files[CONTAINER_PATH] == Print(container)
    && PackagePath(ElementPairs(container, "rootfile")) == Some(Paths.Encoded(root))
    && PackageIn(b) in files && files[PackageIn(b)] == Print(package)
    && TellItems(ElementPairs(package, "item"), b.items)
    && TellSpine(ElementPairs(package, "itemref"), b.spine)
  }

  // ------------------------------------------------------------------ reading back

  lemma ReferenceResolves(dirs: seq<string>, file: string, item: BookItem)
    requires AreNames(dirs) && Paths.IsName(file) && ValidBookItem(item, |dirs|)
    ensures Paths.Resolve(Paths.Rows(dirs + [file]), Paths.Encoded(item.reference)) == Some(PathOf(dirs, item))
  {
    hide Paths.Resolve, Paths.Encoded, Paths.Rows, Paths.Meant, Paths.Acceptable, Paths.ValidWritten, Paths.IsName;
    Paths.EveryFileReachable(dirs, file, item.up, item.down, item.reference);
  }

  lemma EntryRead(dirs: seq<string>, file: string, item: BookItem, pairs: seq<Pair>)
    requires AreNames(dirs) && Paths.IsName(file) && ValidBookItem(item, |dirs|) && TellsItem(pairs, item)
    ensures EntryOf(pairs, Paths.Rows(dirs + [file])) ==
            Some(Entry(item.id, ManifestItem(PathOf(dirs, item), item.mediaType)))
  {
    hide Lookup, AreNames, Refers, PathOf, Paths.Resolve, Paths.Encoded, Paths.Rows, Paths.IsName;
    ReferenceResolves(dirs, file, item);
  }

  /** What the manifest has for an id is the book's item of that id. */
  lemma {:induction false} FirstItemRead(
    dirs: seq<string>, file: string, items: seq<BookItem>, elements: seq<seq<Pair>>, id: string)
    requires AreNames(dirs) && Paths.IsName(file) && TellItems(elements, items)
    requires forall i :: 0 <= i < |items| ==> ValidBookItem(items[i], |dirs|)
    ensures FirstItem(elements, id, Paths.Rows(dirs + [file])) ==
            match ItemOf(items, id)
            case None => None
            case Some(item) => Some(ManifestItem(PathOf(dirs, item), item.mediaType))
    decreases |items|
  {
    hide EntryOf, TellsItem, PathOf, AreNames, ValidBookItem, Paths.Rows, Paths.IsName;
    if items != [] {
      EntryRead(dirs, file, items[0], elements[0]);
      FirstItemRead(dirs, file, items[1..], elements[1..], id);
    }
  }

  lemma ManifestRead(b: Book, elements: seq<seq<Pair>>, id: string)
    requires ValidBook(b) && TellItems(elements, b.items) && id in b.spine
    ensures var manifest := ManifestOf(elements, PackageIn(b));
      var item := ItemOf(b.items, id);
      item.Some? && id in manifest && manifest[id] == ManifestItem(PathOf(b.dirs, item.value), item.value.mediaType)
  {
    hide ManifestOf, FirstItem, TellItems, AreNames, ValidBookItem, ItemOf, PathOf, Paths.IsName;
    FirstItemRead(b.dirs, b.file, b.items, elements, id);
    ManifestIsFirst(elements, id, PackageIn(b));
  }

  lemma SelectsWritten(b: Book, elements: seq<seq<Pair>>, pairs: seq<Pair>, id: string)
    requires ValidBook(b) && TellItems(elements, b.items) && id in b.spine && Lookup(pairs, "idref") == Some(id)
    ensures var manifest := ManifestOf(elements, PackageIn(b));
      Selects(pairs, manifest) == ChapterOf(b, id) && Listed(pairs, manifest)
  {
    hide ManifestOf, ValidBook, TellItems, ItemOf, Lookup, PathOf, PackageIn, IsHtml;
    ManifestRead(b, elements, id);
  }

  lemma {:induction false} SelectedWritten(b: Book, elements: seq<seq<Pair>>, references: seq<seq<Pair>>, n: nat)
    requires ValidBook(b) && TellItems(elements, b.items) && TellSpine(references, b.spine) && n <= |b.spine|
    ensures var manifest := ManifestOf(elements, PackageIn(b));
      && Selected(references[..n], manifest) == ChaptersOf(b, n)
      && forall r :: r in references[..n] ==> Listed(r, manifest)
  {
    hide ManifestOf, ValidBook, TellItems, PackageIn, Selects, Listed, ChapterOf, Lookup;
    if n > 0 {
      SelectedWritten(b, elements, references, n - 1);
      assert references[..n][..n - 1] == references[..n - 1];
      SelectsWritten(b, elements, references[n - 1], b.spine[n - 1]);
    }
  }

  lemma AllSelected(b: Book, elements: seq<seq<Pair>>, references: seq<seq<Pair>>)
    requires ValidBook(b) && TellItems(elements, b.items) && TellSpine(references, b.spine)
    ensures var manifest := ManifestOf(elements, PackageIn(b));
      && Selected(references, manifest) == ChaptersOf(b, |b.spine|)
      && forall r :: r in references ==> Listed(r, manifest)
  {
    hide ManifestOf, ValidBook, TellItems, Selected, Listed, ChaptersOf;
    SelectedWritten(b, elements, references, |b.spine|);
    assert references[..|b.spine|] == references;
  }

  /** A book written into an archive is read back: its chapters are the HTML items of
      its spine, in order, with the paths of their files. */
  lemma BookIsRead(
    b: Book, files: Archive, root: seq<Paths.Written>, container: seq<Item>, package: seq<Item>, chapters: seq<Chapter>)
    requires ValidBook(b) && Holds(files, b, root, container, package)
    requires chapters == ChaptersOf(b, |b.spine|) && 1 <= |chapters| <= MAX_CHAPTERS
    requires forall c :: c in chapters ==> c.path in files
    ensures Parse(files) == Ok(chapters)
  {
    hide ManifestOf, Selected, Listed, Print, ElementPairs, Lookup, Epub.Read, ChaptersOf, Parse, TellItems, TellSpine;
    hide Paths.Resolve, Paths.Rows, Paths.Encoded, Refers, ValidBook, PackagePath;
    RootFound(b, root);
    PrintedIsRead(container, "rootfile");
    PrintedIsRead(package, "item");
    PrintedIsRead(package, "itemref");
    AllSelected(b, ElementPairs(package, "item"), ElementPairs(package, "itemref"));
    ParseIff(files, chapters);
  }

  lemma RootFound(b: Book, root: seq<Paths.Written>)
    requires ValidBook(b) && Refers(root, 0, b.dirs + [b.file])
    ensures Paths.Resolve("container.xml", Paths.Encoded(root)) == Some(PackageIn(b))
  {
    hide Paths.Resolve, Paths.Encoded, Paths.Acceptable, Paths.Meant, Paths.ValidWritten, Paths.Rows;
    assert [] + ["container.xml"] == ["container.xml"];
    var path := b.dirs + [b.file];
    assert [][..0] + path == path;
    Paths.RowsOne("container.xml");
    Paths.EveryFileReachable([], "container.xml", 0, path, root);
  }

  // --------------------------------------------------------------- the plain writer

  function AttrOf(name: string, value: string): Attr { Attr(" ", name, "", "", '"', Entities.Escape(value)) }

  function Empty(name: string, attrs: seq<Attr>): Item { Element(name, attrs, Tail("", true)) }

  function Opening(name: string): Item { Element(name, [], Tail("", false)) }

  function Closing(name: string): Item { Markup('/', name) }

  function ItemAttrs(item: BookItem): seq<Attr>
  {
    [AttrOf("id", item.id), AttrOf("href", Paths.Encoded(item.reference)), AttrOf("media-type", item.mediaType)] +
    item.more
  }

  function ItemElement(item: BookItem): Item { Empty("item", ItemAttrs(item)) }

  function ItemElements(items: seq<BookItem>): seq<Item>
  {
    if items == [] then [] else [ItemElement(items[0])] + ItemElements(items[1..])
  }

  function RefElement(id: string): Item { Empty("itemref", [AttrOf("idref", id)]) }

  function RefElements(spine: seq<string>): seq<Item>
  {
    if spine == [] then [] else [RefElement(spine[0])] + RefElements(spine[1..])
  }

  const PACKAGE_TYPE: string := "application/oebps-package+xml"

  function RootElement(root: seq<Paths.Written>): Item
  {
    Empty("rootfile", [AttrOf("full-path", Paths.Encoded(root)), AttrOf("media-type", PACKAGE_TYPE)])
  }

  function ContainerDocument(root: seq<Paths.Written>): seq<Item>
  {
    [Opening("container"), RootElement(root), Closing("container")]
  }

  function PackageDocument(b: Book): seq<Item>
  {
    [Opening("package"), Opening("manifest")] + ItemElements(b.items) + [Closing("manifest"), Opening("spine")] +
    RefElements(b.spine) + [Closing("spine"), Closing("package")]
  }

  lemma EscapedHasNoQuote(v: string)
    ensures '"' !in Entities.Escape(v)
  {
    hide Entities.PrintAll, Entities.EscapeOne;
    var pieces := seq(|v|, i requires 0 <= i < |v| => Entities.EscapeOne(v[i]));
    forall i | 0 <= i < |v|
      ensures '"' !in Entities.Print(pieces[i])
    {
      PieceHasNoQuote(v[i]);
    }
    PiecesHaveNoQuote(pieces);
  }

  lemma PieceHasNoQuote(c: char)
    ensures '"' !in Entities.Print(Entities.EscapeOne(c))
  {
  }

  lemma {:induction false} PiecesHaveNoQuote(pieces: seq<Entities.Piece>)
    requires forall i :: 0 <= i < |pieces| ==> '"' !in Entities.Print(pieces[i])
    ensures '"' !in Entities.PrintAll(pieces)
    decreases |pieces|
  {
    if pieces != [] {
      PiecesHaveNoQuote(pieces[1..]);
    }
  }

  /** Names of lower-case letters and hyphens. */
  predicate Simple(name: string) { name != "" && forall c :: c in name ==> 'a' <= c <= 'z' || c == '-' }

  lemma SimpleName(name: string)
    requires Simple(name)
    ensures IsName(name) && LocalName(name) == name
    ensures ValidItem(Opening(name)) && ValidItem(Closing(name))
  {
    PlainName(name);
  }

  lemma AttrIsValid(name: string, value: string)
    requires Simple(name)
    ensures ValidAttr(AttrOf(name, value))
  {
    EscapedHasNoQuote(value);
  }

  lemma AttributeNames()
    ensures Simple("id") && Simple("href") && Simple("media-type") && Simple("idref") && Simple("full-path")
  {
  }

  lemma ElementNames()
    ensures Simple("container") && Simple("rootfile") && Simple("package") && Simple("manifest")
    ensures Simple("item") && Simple("spine") && Simple("itemref")
  {
  }

  predicate Carries(item: Item, requested: string) { item.Element? && LocalName(item.name) == requested }

  lemma Otherwise(name: string, requested: string)
    requires Simple(name) && name != requested
    ensures !Carries(Opening(name), requested) && !Carries(Closing(name), requested)
    ensures ValidItem(Opening(name)) && ValidItem(Closing(name))
  {
    hide LocalName, IsName, Simple, ValidItem;
    SimpleName(name);
  }

  lemma EmptyIsValid(name: string, attrs: seq<Attr>)
    requires Simple(name) && forall a :: a in attrs ==> ValidAttr(a)
    ensures ValidItem(Empty(name, attrs)) && LocalName(name) == name
  {
    hide ValidAttr, LocalName;
    SimpleName(name);
  }

  lemma {:induction false} PairsAppend(a: seq<Item>, b: seq<Item>, requested: string)
    ensures ElementPairs(a + b, requested) == ElementPairs(a, requested) + ElementPairs(b, requested)
    decreases |a|
  {
    hide LocalName, PairsOf;
    if a == [] {
      assert a + b == b;
    } else {
      assert (a + b)[1..] == a[1..] + b;
      PairsAppend(a[1..], b, requested);
    }
  }

  lemma OnePair(item: Item, requested: string)
    ensures ElementPairs([item], requested) ==
            if Carries(item, requested) then [PairsOf(item.attrs)] else []
  {
    assert ElementPairs([], requested) == [];
  }

  // ----------------------------------------------------------- attributes read back

  function Written(name: string, value: string): Pair { Pair(name, Entities.Escape(value)) }

  lemma PairsOfFirst(name: string, value: string, attrs: seq<Attr>)
    ensures PairsOf([AttrOf(name, value)] + attrs) == [Written(name, value)] + PairsOf(attrs)
  {
    hide Entities.Escape;
    assert ([AttrOf(name, value)] + attrs)[1..] == attrs;
  }

  lemma LookupFirst(name: string, value: string, attrs: seq<Attr>, requested: string)
    requires Simple(name)
    ensures Lookup(PairsOf([AttrOf(name, value)] + attrs), requested) ==
            if name == requested then Some(value) else Lookup(PairsOf(attrs), requested)
  {
    hide Entities.Decode, Entities.Escape, LocalName, PairsOf;
    PlainName(name);
    PairsOfFirst(name, value, attrs);
    Entities.PredefinedRoundTrip(value);
    assert ([Written(name, value)] + PairsOf(attrs))[1..] == PairsOf(attrs);
  }

  predicate ValidMore(items: seq<BookItem>)
  {
    forall item :: item in items ==> forall a :: a in item.more ==> ValidAttr(a)
  }

  lemma LookupItem(item: BookItem)
    ensures TellsItem(PairsOf(ItemAttrs(item)), item)
  {
    hide Lookup, PairsOf, AttrOf, Simple, Paths.Encoded;
    AttributeNames();
    var reference := Paths.Encoded(item.reference);
    var last := [AttrOf("media-type", item.mediaType)] + item.more;
    var later := [AttrOf("href", reference)] + last;
    assert ItemAttrs(item) == [AttrOf("id", item.id)] + later;
    LookupFirst("id", item.id, later, "id");
    LookupFirst("id", item.id, later, "href");
    LookupFirst("id", item.id, later, "media-type");
    LookupFirst("href", reference, last, "href");
    LookupFirst("href", reference, last, "media-type");
    LookupFirst("media-type", item.mediaType, item.more, "media-type");
  }

  lemma ItemElementRead(item: BookItem)
    requires forall a :: a in item.more ==> ValidAttr(a)
    ensures ItemElement(item).Element? && ValidItem(ItemElement(item))
    ensures Carries(ItemElement(item), "item") && !Carries(ItemElement(item), "itemref")
    ensures TellsItem(PairsOf(ItemElement(item).attrs), item)
  {
    hide ValidAttr, IsName, LocalName, Simple, ValidItem, TellsItem, AttrOf, PairsOf;
    AttributeNames();
    ElementNames();
    AttrIsValid("id", item.id);
    AttrIsValid("href", Paths.Encoded(item.reference));
    AttrIsValid("media-type", item.mediaType);
    EmptyIsValid("item", ItemAttrs(item));
    LookupItem(item);
  }

  lemma {:induction false} ItemElementsRead(items: seq<BookItem>)
    requires ValidMore(items)
    ensures forall item :: item in ItemElements(items) ==> ValidItem(item)
    ensures TellItems(ElementPairs(ItemElements(items), "item"), items)
    ensures ElementPairs(ItemElements(items), "itemref") == []
  {
    hide PairsOf, ValidItem, Carries, ItemElement, TellsItem, ValidAttr;
    if items != [] {
      hide ElementPairs;
      ItemElementRead(items[0]);
      ItemElementsRead(items[1..]);
      OneElementMore(ItemElement(items[0]), ItemElements(items[1..]), "item");
      OneElementMore(ItemElement(items[0]), ItemElements(items[1..]), "itemref");
    }
  }

  lemma OneElementMore(item: Item, rest: seq<Item>, requested: string)
    ensures ElementPairs([item] + rest, requested) ==
            (if Carries(item, requested) then [PairsOf(item.attrs)] else []) + ElementPairs(rest, requested)
  {
    hide LocalName, PairsOf;
    assert ([item] + rest)[1..] == rest;
  }

  lemma RefElementRead(id: string)
    ensures RefElement(id).Element? && ValidItem(RefElement(id))
    ensures Carries(RefElement(id), "itemref") && !Carries(RefElement(id), "item")
    ensures Lookup(PairsOf(RefElement(id).attrs), "idref") == Some(id)
  {
    hide ValidAttr, IsName, LocalName, Simple, ValidItem, AttrOf, PairsOf, Lookup;
    AttributeNames();
    ElementNames();
    AttrIsValid("idref", id);
    assert [AttrOf("idref", id)] + [] == [AttrOf("idref", id)];
    LookupFirst("idref", id, [], "idref");
    EmptyIsValid("itemref", [AttrOf("idref", id)]);
  }

  lemma {:induction false} RefElementsRead(spine: seq<string>)
    ensures forall item :: item in RefElements(spine) ==> ValidItem(item)
    ensures TellSpine(ElementPairs(RefElements(spine), "itemref"), spine)
    ensures ElementPairs(RefElements(spine), "item") == []
  {
    hide PairsOf, ValidItem, Carries, RefElement, Lookup;
    if spine != [] {
      hide ElementPairs;
      RefElementRead(spine[0]);
      RefElementsRead(spine[1..]);
      OneElementMore(RefElement(spine[0]), RefElements(spine[1..]), "itemref");
      OneElementMore(RefElement(spine[0]), RefElements(spine[1..]), "item");
    }
  }

  /** Items of which none is an element of the name. */
  predicate Silent(items: seq<Item>, requested: string)
  {
    && |items| == 2
    && ValidItem(items[0]) && ValidItem(items[1])
    && !Carries(items[0], requested) && !Carries(items[1], requested)
  }

  lemma SilentPairs(items: seq<Item>, requested: string)
    requires Silent(items, requested)
    ensures ElementPairs(items, requested) == []
    ensures forall item :: item in items ==> ValidItem(item)
  {
    hide Carries, PairsOf, ValidItem;
    assert items == [items[0]] + [items[1]];
    OneElementMore(items[0], [items[1]], requested);
    OneElementMore(items[1], [], requested);
    assert [items[1]] + [] == [items[1]];
  }

  lemma SilentPair(a: string, aOpens: bool, b: string, bOpens: bool, requested: string)
    requires Simple(a) && Simple(b) && a != requested && b != requested
    ensures Silent([if aOpens then Opening(a) else Closing(a), if bOpens then Opening(b) else Closing(b)], requested)
  {
    hide Carries, Simple, ValidItem, Opening, Closing;
    Otherwise(a, requested);
    Otherwise(b, requested);
  }

  lemma Frames(requested: string)
    requires requested == "item" || requested == "itemref"
    ensures Silent([Opening("package"), Opening("manifest")], requested)
    ensures Silent([Closing("manifest"), Opening("spine")], requested)
    ensures Silent([Closing("spine"), Closing("package")], requested)
  {
    hide Silent, Simple, Opening, Closing;
    ElementNames();
    SilentPair("package", true, "manifest", true, requested);
    SilentPair("manifest", false, "spine", true, requested);
    SilentPair("spine", false, "package", false, requested);
  }

  lemma PackageRead(b: Book)
    requires ValidMore(b.items)
    ensures forall item :: item in PackageDocument(b) ==> ValidItem(item)
    ensures TellItems(ElementPairs(PackageDocument(b), "item"), b.items)
    ensures TellSpine(ElementPairs(PackageDocument(b), "itemref"), b.spine)
  {
    hide ElementPairs, ValidItem, ItemElements, RefElements, TellItems, TellSpine;
    ItemElementsRead(b.items);
    RefElementsRead(b.spine);
    Framed(b, "item");
    Framed(b, "itemref");
    var items, references := ElementPairs(ItemElements(b.items), "item"), ElementPairs(RefElements(b.spine), "itemref");
    assert items + [] == items && [] + references == references;
  }

  lemma Framed(b: Book, requested: string)
    requires requested == "item" || requested == "itemref"
    requires forall item :: item in ItemElements(b.items) + RefElements(b.spine) ==> ValidItem(item)
    ensures forall item :: item in PackageDocument(b) ==> ValidItem(item)
    ensures ElementPairs(PackageDocument(b), requested) ==
            ElementPairs(ItemElements(b.items), requested) + ElementPairs(RefElements(b.spine), requested)
  {
    hide ElementPairs, ValidItem, Silent, ItemElements, RefElements, Opening, Closing;
    var head, middle, end := [Opening("package"), Opening("manifest")], [Closing("manifest"), Opening("spine")],
      [Closing("spine"), Closing("package")];
    Frames(requested);
    SilentPairs(head, requested);
    SilentPairs(middle, requested);
    SilentPairs(end, requested);
    PairsAppend(head, ItemElements(b.items), requested);
    PairsAppend(head + ItemElements(b.items), middle, requested);
    PairsAppend(head + ItemElements(b.items) + middle, RefElements(b.spine), requested);
    PairsAppend(head + ItemElements(b.items) + middle + RefElements(b.spine), end, requested);
  }

  lemma FrameAround(first: Item, middle: Item, last: Item, requested: string)
    requires !Carries(first, requested) && !Carries(last, requested)
    ensures ElementPairs([first, middle, last], requested) == ElementPairs([middle], requested)
    ensures Carries(middle, requested) ==>
              ElementPairs([middle], requested) == [PairsOf(middle.attrs)]
  {
    hide LocalName, PairsOf;
    assert [first, middle, last] == [first] + ([middle] + [last]);
    OneElementMore(first, [middle] + [last], requested);
    OneElementMore(middle, [last], requested);
    OnePair(middle, requested);
    OnePair(last, requested);
  }

  lemma ContainerRead(root: seq<Paths.Written>)
    ensures forall item :: item in ContainerDocument(root) ==> ValidItem(item)
    ensures PackagePath(ElementPairs(ContainerDocument(root), "rootfile")) == Some(Paths.Encoded(root))
  {
    hide ValidAttr, LocalName, Paths.Encoded, Simple, ValidItem, ElementPairs, Opening, Closing;
    hide AttrOf, PairsOf, Lookup;
    AttributeNames();
    ElementNames();
    var path, kind := AttrOf("full-path", Paths.Encoded(root)), AttrOf("media-type", PACKAGE_TYPE);
    AttrIsValid("full-path", Paths.Encoded(root));
    AttrIsValid("media-type", PACKAGE_TYPE);
    EmptyIsValid("rootfile", [path, kind]);
    Otherwise("container", "rootfile");
    FrameAround(Opening("container"), RootElement(root), Closing("container"), "rootfile");
    assert [path] + [kind] == [path, kind];
    LookupFirst("full-path", Paths.Encoded(root), [kind], "full-path");
  }

  /** What the plain writer puts into an archive is read back as the book. */
  lemma BookRoundTrip(b: Book, files: Archive, root: seq<Paths.Written>)
    requires ValidBook(b) && ValidMore(b.items) && Refers(root, 0, b.dirs + [b.file])
    requires CONTAINER_PATH in files && files[CONTAINER_PATH] == Print(ContainerDocument(root))
    requires PackageIn(b) in files && files[PackageIn(b)] == Print(PackageDocument(b))
    requires 1 <= |ChaptersOf(b, |b.spine|)| <= MAX_CHAPTERS
    requires forall c :: c in ChaptersOf(b, |b.spine|) ==> c.path in files
    ensures Parse(files) == Ok(ChaptersOf(b, |b.spine|))
  {
    hide ElementPairs, ContainerDocument, PackageDocument, Print, ValidItem, ValidBook, Refers, Parse, ValidMore;
    hide TellItems, TellSpine, PackagePath, ChaptersOf;
    ContainerRead(root);
    PackageRead(b);
    assert Holds(files, b, root, ContainerDocument(root), PackageDocument(b));
    BookIsRead(b, files, root, ContainerDocument(root), PackageDocument(b), ChaptersOf(b, |b.spine|));
  }
}
