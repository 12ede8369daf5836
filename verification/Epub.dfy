/** Selecting the chapters of a book from its package document. */
module Epub {
  import opened Wrappers
  import opened XmlTags
  import opened Attributes
  import opened Documents
  import Paths

  datatype ManifestItem = ManifestItem(path: string, mediaType: string)

  datatype Chapter = Chapter(id: string, path: string)

  datatype Error =
    | MissingFile(path: string)
    | NoPackage
    | InvalidPackagePath
    | EmptyManifest
    | MissingItem(id: string)
    | TooManyChapters
    | NoChapters

  datatype Result = Ok(chapters: seq<Chapter>) | Failed(error: Error)

  /** An archive: the texts of its files by path. */
  type Archive = map<string, string>

  type Manifest = map<string, ManifestItem>

  const MAX_CHAPTERS: nat := 2048

  predicate IsHtml(mediaType: string) { mediaType == "application/xhtml+xml" || mediaType == "text/html" }

  /** A manifest element with everything it needs. */
  datatype Entry = Entry(id: string, item: ManifestItem)

  function EntryOf(pairs: seq<Pair>, package: string): Option<Entry>
  {
    var id, href, mediaType := Lookup(pairs, "id"), Lookup(pairs, "href"), Lookup(pairs, "media-type");
    var path := if href.Some? then Paths.Resolve(package, href.value) else None;
    if id.Some? && id.value != "" && path.Some? && mediaType.Some? then
      Some(Entry(id.value, ManifestItem(path.value, mediaType.value)))
    else None
  }

  /** `emplace`: an id already present keeps its item. */
  function Emplace(manifest: Manifest, entry: Option<Entry>): Manifest
  {
    if entry.Some? && entry.value.id !in manifest then manifest[entry.value.id := entry.value.item] else manifest
  }

  function ManifestOf(items: seq<seq<Pair>>, package: string): Manifest
  {
    if items == [] then map[]
    else Emplace(ManifestOf(items[..|items| - 1], package), EntryOf(items[|items| - 1], package))
  }

  /** What one spine reference does to the chapters so far. */
  function Refer(so: Result, pairs: seq<Pair>, manifest: Manifest, files: Archive): Result
  {
    var id := Lookup(pairs, "idref");
    if so.Failed? || id == None then so
    else if id.value !in manifest then Failed(MissingItem(id.value))
    else
      var item := manifest[id.value];
      if !IsHtml(item.mediaType) then so
      else if |so.chapters| >= MAX_CHAPTERS then Failed(TooManyChapters)
      else if item.path !in files then Failed(MissingFile(item.path))
      else Ok(so.chapters + [Chapter(id.value, item.path)])
  }

  function SpineOf(references: seq<seq<Pair>>, manifest: Manifest, files: Archive): Result
  {
    if references == [] then Ok([])
    else
      var last := |references| - 1;
      Refer(SpineOf(references[..last], manifest, files), references[last], manifest, files)
  }

  function Read(xml: string, requested: string): seq<seq<Pair>> { PairsNamed(Tags(xml, 0), requested) }

  /** The package path a container names. */
  function PackagePath(rootfiles: seq<seq<Pair>>): Option<string>
  {
    if rootfiles == [] then None else Lookup(rootfiles[0], "full-path")
  }

  /** A package read: the attributes of its manifest items and spine references. */
  function Chapters(items: seq<seq<Pair>>, references: seq<seq<Pair>>, package: string, files: Archive): Result
  {
    var manifest := ManifestOf(items, package);
    if manifest == map[] then Failed(EmptyManifest)
    else
      var spine := SpineOf(references, manifest, files);
      if spine == Ok([]) then Failed(NoChapters) else spine
  }

  const CONTAINER_PATH: string := "META-INF/container.xml"

  function ReadPackage(package: string, files: Archive): Result
  {
    if package !in files then Failed(MissingFile(package))
    else Chapters(Read(files[package], "item"), Read(files[package], "itemref"), package, files)
  }

  function Parse(files: Archive): Result
  {
    if CONTAINER_PATH !in files then Failed(MissingFile(CONTAINER_PATH))
    else
      match PackagePath(Read(files[CONTAINER_PATH], "rootfile"))
      case None => Failed(NoPackage)
      case Some(reference) =>
        match Paths.Resolve("container.xml", reference)
        case None => Failed(InvalidPackagePath)
        case Some(package) => ReadPackage(package, files)
  }

  // -------------------------------------------------------------------- the parser

  function AllPairs(tags: seq<Tag>): seq<seq<Pair>>
  {
    if tags == [] then [] else [Pairs(tags[0].attributes, 0)] + AllPairs(tags[1..])
  }

  lemma AllPairsFirst(tag: Tag, tags: seq<Tag>)
    ensures AllPairs([tag] + tags) == [Pairs(tag.attributes, 0)] + AllPairs(tags) && AllPairs([]) == []
  {
    hide Pairs;
    assert ([tag] + tags)[1..] == tags;
  }

  lemma {:induction false} PairsOfFound(tags: seq<Tag>, requested: string)
    ensures PairsNamed(tags, requested) == AllPairs(Named(tags, requested))
  {
    hide Pairs, LocalName, AllPairs;
    if tags == [] {
      AllPairsFirst(Tag("", "", 0), []);
    } else {
      PairsOfFound(tags[1..], requested);
      AllPairsFirst(tags[0], Named(tags[1..], requested));
      assert [] + Named(tags[1..], requested) == Named(tags[1..], requested);
      assert [] + PairsNamed(tags[1..], requested) == PairsNamed(tags[1..], requested);
    }
  }

  /** Finding a tag takes the first of the attribute lists still to be read. */
  lemma FoundIsFirst(xml: string, start: nat, requested: string, r: Option<Tag>)
    requires start <= |xml| && Finds(xml, start, requested, r)
    ensures r == None ==> PairsNamed(Tags(xml, start), requested) == []
    ensures r.Some? ==>
              PairsNamed(Tags(xml, start), requested) ==
              [Pairs(r.value.attributes, 0)] + PairsNamed(Tags(xml, r.value.content), requested)
  {
    hide Tags, Named, PairsNamed, Pairs, AllPairs;
    PairsOfFound(Tags(xml, start), requested);
    AllPairsFirst(Tag("", "", 0), []);
    if r.Some? {
      AllPairsFirst(r.value, Named(Tags(xml, r.value.content), requested));
      PairsOfFound(Tags(xml, r.value.content), requested);
    }
  }

  /** The attribute lists read so far, up to `cursor`. */
  ghost predicate ReadTo(text: string, requested: string, done: seq<seq<Pair>>, cursor: nat)
  {
    cursor <= |text| && Read(text, requested) == done + PairsNamed(Tags(text, cursor), requested)
  }

  lemma ReadNothing(text: string, requested: string)
    ensures ReadTo(text, requested, [], 0)
  {
    hide PairsNamed, Tags;
  }

  lemma ReadNext(text: string, requested: string, done: seq<seq<Pair>>, cursor: nat, r: Option<Tag>)
    requires ReadTo(text, requested, done, cursor) && Finds(text, cursor, requested, r)
    ensures r == None ==> done == Read(text, requested)
    ensures r.Some? ==> cursor < r.value.content <= |text|
    ensures r.Some? ==> ReadTo(text, requested, done + [Pairs(r.value.attributes, 0)], r.value.content)
  {
    hide PairsNamed, Tags, Named, Pairs, Read;
    FoundIsFirst(text, cursor, requested, r);
    if r.Some? {
      var next, rest := Pairs(r.value.attributes, 0), PairsNamed(Tags(text, r.value.content), requested);
      assert done + ([next] + rest) == (done + [next]) + rest;
    }
  }

  lemma ManifestNext(done: seq<seq<Pair>>, next: seq<Pair>, package: string)
    ensures ManifestOf(done + [next], package) == Emplace(ManifestOf(done, package), EntryOf(next, package))
  {
    hide EntryOf, Emplace;
    assert (done + [next])[..|done|] == done;
  }

  lemma SpineNext(done: seq<seq<Pair>>, next: seq<Pair>, manifest: Manifest, files: Archive)
    ensures SpineOf(done + [next], manifest, files) == Refer(SpineOf(done, manifest, files), next, manifest, files)
  {
    hide Refer;
    assert (done + [next])[..|done|] == done;
  }

  method ReadManifest(package: string, text: string) returns (manifest: Manifest)
    ensures manifest == ManifestOf(Read(text, "item"), package)
  {
    hide Read, ReadTo, Pairs, EntryOf, ManifestOf, Finds;
    manifest := map[];
    var cursor := 0;
    ghost var done: seq<seq<Pair>> := [];
    ReadNothing(text, "item");
    ManifestOfNone(package);
    while true
      invariant cursor <= |text|
      invariant ReadTo(text, "item", done, cursor)
      invariant manifest == ManifestOf(done, package)
      decreases |text| - cursor
    {
      var item := FindTag(text, "item", cursor);
      ReadNext(text, "item", done, cursor, item);
      if item == None {
        break;
      }
      cursor := item.value.content;
      var entry := ReadEntry(item.value, package);
      ManifestNext(done, Pairs(item.value.attributes, 0), package);
      done := done + [Pairs(item.value.attributes, 0)];
      if entry.Some? && entry.value.id !in manifest {
        manifest := manifest[entry.value.id := entry.value.item];
      }
    }
  }

  lemma ManifestOfNone(package: string)
    ensures ManifestOf([], package) == map[]
  {
  }

  /** The attributes of one manifest item, its path resolved. */
  method ReadEntry(item: Tag, package: string) returns (entry: Option<Entry>)
    ensures entry == EntryOf(Pairs(item.attributes, 0), package)
  {
    hide Pairs, Lookup, Paths.Resolve;
    var id := Attribute(item.attributes, "id");
    var href := Attribute(item.attributes, "href");
    var mediaType := Attribute(item.attributes, "media-type");
    var path: Option<string> := None;
    if href.Some? {
      path := Paths.ResolvePath(package, href.value);
    }
    if id.Some? && id.value != "" && path.Some? && mediaType.Some? {
      return Some(Entry(id.value, ManifestItem(path.value, mediaType.value)));
    }
    return None;
  }

  method ReadSpine(text: string, manifest: Manifest, files: Archive) returns (r: Result)
    ensures r == SpineOf(Read(text, "itemref"), manifest, files)
  {
    hide Read, ReadTo, Pairs, Lookup, SpineOf, Finds;
    var chapters: seq<Chapter> := [];
    var cursor := 0;
    ghost var done: seq<seq<Pair>> := [];
    ReadNothing(text, "itemref");
    SpineOfNone(manifest, files);
    while true
      invariant cursor <= |text|
      invariant ReadTo(text, "itemref", done, cursor)
      invariant Ok(chapters) == SpineOf(done, manifest, files)
      decreases |text| - cursor
    {
      var reference := FindTag(text, "itemref", cursor);
      ReadNext(text, "itemref", done, cursor, reference);
      if reference == None {
        break;
      }
      cursor := reference.value.content;
      var id := Attribute(reference.value.attributes, "idref");
      SpineNext(done, Pairs(reference.value.attributes, 0), manifest, files);
      done := done + [Pairs(reference.value.attributes, 0)];
      SpineFails(text, done, cursor, manifest, files);
      if id == None {
        continue;
      }
      if id.value !in manifest {
        return Failed(MissingItem(id.value));
      }
      var found := manifest[id.value];
      if found.mediaType != "application/xhtml+xml" && found.mediaType != "text/html" {
        continue;
      }
      if |chapters| >= MAX_CHAPTERS {
        return Failed(TooManyChapters);
      }
      if found.path !in files {
        return Failed(MissingFile(found.path));
      }
      chapters := chapters + [Chapter(id.value, found.path)];
    }
    return Ok(chapters);
  }

  lemma SpineOfNone(manifest: Manifest, files: Archive)
    ensures SpineOf([], manifest, files) == Ok([])
  {
  }

  /** A failure decides the whole spine. */
  lemma SpineFails(text: string, done: seq<seq<Pair>>, cursor: nat, manifest: Manifest, files: Archive)
    requires ReadTo(text, "itemref", done, cursor)
    ensures SpineOf(done, manifest, files).Failed? ==>
              SpineOf(Read(text, "itemref"), manifest, files) == SpineOf(done, manifest, files)
  {
    hide Read, SpineOf, PairsNamed, Tags;
    if SpineOf(done, manifest, files).Failed? {
      FailureStays(done, PairsNamed(Tags(text, cursor), "itemref"), manifest, files);
    }
  }

  lemma {:induction false} FailureStays(done: seq<seq<Pair>>, rest: seq<seq<Pair>>, manifest: Manifest, files: Archive)
    requires SpineOf(done, manifest, files).Failed?
    ensures SpineOf(done + rest, manifest, files) == SpineOf(done, manifest, files)
    decreases |rest|
  {
    if rest == [] {
      assert done + rest == done;
    } else {
      var last := |rest| - 1;
      FailureStays(done, rest[..last], manifest, files);
      assert (done + rest)[..|done + rest| - 1] == done + rest[..last];
    }
  }

  method ParseEpub(files: Archive) returns (r: Result)
    ensures r == Parse(files)
    ensures forall chapters :: r == Ok(chapters) <==> ReadsAs(files, chapters)
  {
    hide Tags, PairsNamed, Pairs, Lookup, Finds, ManifestOf, SpineOf, Paths.Resolve, ReadsAs;
    ParsedExactly(files);
    if CONTAINER_PATH !in files {
      return Failed(MissingFile(CONTAINER_PATH));
    }
    var container := files[CONTAINER_PATH];
    var rootfile := FindTag(container, "rootfile", 0);
    FoundIsFirst(container, 0, "rootfile", rootfile);
    var packagePath: Option<string> := None;
    if rootfile.Some? {
      packagePath := Attribute(rootfile.value.attributes, "full-path");
    }
    if packagePath == None {
      return Failed(NoPackage);
    }
    var normalized := Paths.ResolvePath("container.xml", packagePath.value);
    if normalized == None {
      return Failed(InvalidPackagePath);
    }
    var package := normalized.value;
    if package !in files {
      return Failed(MissingFile(package));
    }
    var manifest := ReadManifest(package, files[package]);
    if manifest == map[] {
      return Failed(EmptyManifest);
    }
    r := ReadSpine(files[package], manifest, files);
    if r == Ok([]) {
      r := Failed(NoChapters);
    }
  }

  // ------------------------------------------------------------- what is selected

  predicate Declares(pairs: seq<Pair>, id: string, package: string)
  {
    var entry := EntryOf(pairs, package);
    entry.Some? && entry.value.id == id
  }

  /** The item of the first element that declares `id`. */
  function FirstItem(items: seq<seq<Pair>>, id: string, package: string): Option<ManifestItem>
  {
    if items == [] then None
    else if Declares(items[0], id, package) then Some(EntryOf(items[0], package).value.item)
    else FirstItem(items[1..], id, package)
  }

  lemma {:induction false} FirstItemOfMore(items: seq<seq<Pair>>, last: seq<Pair>, id: string, package: string)
    ensures FirstItem(items + [last], id, package) ==
            if FirstItem(items, id, package).Some? then FirstItem(items, id, package)
            else if Declares(last, id, package) then Some(EntryOf(last, package).value.item) else None
  {
    hide EntryOf;
    if items == [] {
      assert [] + [last] == [last];
    } else {
      assert (items + [last])[1..] == items[1..] + [last];
      FirstItemOfMore(items[1..], last, id, package);
    }
  }

  /** The manifest holds an id exactly when some item declares it, and then the first
      item that does. */
  lemma {:induction false} ManifestIsFirst(items: seq<seq<Pair>>, id: string, package: string)
    ensures id in ManifestOf(items, package) <==> FirstItem(items, id, package).Some?
    ensures id in ManifestOf(items, package) ==>
              ManifestOf(items, package)[id] == FirstItem(items, id, package).value
    decreases |items|
  {
    hide EntryOf, FirstItem;
    if items == [] {
      NothingFirst(id, package);
    } else {
      var last := |items| - 1;
      ManifestIsFirst(items[..last], id, package);
      FirstItemOfMore(items[..last], items[last], id, package);
      assert items == items[..last] + [items[last]];
    }
  }

  lemma NothingFirst(id: string, package: string)
    ensures FirstItem([], id, package) == None
  {
  }

  /** The chapter a spine reference selects, if any. */
  function Selects(pairs: seq<Pair>, manifest: Manifest): seq<Chapter>
  {
    var id := Lookup(pairs, "idref");
    if id.Some? && id.value in manifest && IsHtml(manifest[id.value].mediaType) then
      [Chapter(id.value, manifest[id.value].path)]
    else []
  }

  function Selected(references: seq<seq<Pair>>, manifest: Manifest): seq<Chapter>
  {
    if references == [] then []
    else Selected(references[..|references| - 1], manifest) + Selects(references[|references| - 1], manifest)
  }

  predicate Listed(pairs: seq<Pair>, manifest: Manifest)
  {
    Lookup(pairs, "idref").Some? ==> Lookup(pairs, "idref").value in manifest
  }

  predicate Readable(references: seq<seq<Pair>>, manifest: Manifest, files: Archive)
  {
    && (forall r :: r in references ==> Listed(r, manifest))
    && |Selected(references, manifest)| <= MAX_CHAPTERS
    && (forall c :: c in Selected(references, manifest) ==> c.path in files)
  }

  lemma ReadableNext(references: seq<seq<Pair>>, manifest: Manifest, files: Archive)
    requires references != []
    ensures var last := |references| - 1;
      var own := Selects(references[last], manifest);
      Readable(references, manifest, files) <==>
        && Readable(references[..last], manifest, files) && Listed(references[last], manifest)
        && |Selected(references[..last], manifest)| + |own| <= MAX_CHAPTERS
        && forall c :: c in own ==> c.path in files
  {
    hide Selects, Listed;
    var last := |references| - 1;
    assert references == references[..last] + [references[last]];
  }

  lemma ReferOne(so: Result, pairs: seq<Pair>, manifest: Manifest, files: Archive)
    requires so.Ok?
    ensures var own := Selects(pairs, manifest);
      if Listed(pairs, manifest) && |so.chapters| + |own| <= MAX_CHAPTERS && (forall c :: c in own ==> c.path in files)
      then Refer(so, pairs, manifest, files) == Ok(so.chapters + own)
      else Refer(so, pairs, manifest, files).Failed? || (|so.chapters| > MAX_CHAPTERS && own == [])
  {
    hide Lookup, IsHtml;
    var own := Selects(pairs, manifest);
    if own == [] {
      assert so.chapters + own == so.chapters;
    } else {
      assert own[0] in own;
    }
  }

  /** Reading the spine succeeds exactly when every reference is in the manifest, every
      selected file is present and the chapters are few enough; its chapters are then
      all those selected, in spine order. */
  lemma {:induction false} SpineIff(references: seq<seq<Pair>>, manifest: Manifest, files: Archive)
    ensures SpineOf(references, manifest, files).Ok? <==> Readable(references, manifest, files)
    ensures SpineOf(references, manifest, files).Ok? ==>
              SpineOf(references, manifest, files) == Ok(Selected(references, manifest))
  {
    hide Refer, Selects, Listed, Readable;
    if references == [] {
      NothingReadable(manifest, files);
    } else {
      var last := |references| - 1;
      SpineIff(references[..last], manifest, files);
      ReadableNext(references, manifest, files);
      var so := SpineOf(references[..last], manifest, files);
      if so.Ok? {
        FewEnough(references[..last], manifest, files);
        ReferOne(so, references[last], manifest, files);
      } else {
        FailedStays(so, references[last], manifest, files);
      }
    }
  }

  lemma NothingReadable(manifest: Manifest, files: Archive)
    ensures Readable([], manifest, files)
  {
  }

  lemma FewEnough(references: seq<seq<Pair>>, manifest: Manifest, files: Archive)
    requires Readable(references, manifest, files)
    ensures |Selected(references, manifest)| <= MAX_CHAPTERS
  {
  }

  lemma FailedStays(so: Result, pairs: seq<Pair>, manifest: Manifest, files: Archive)
    requires so.Failed?
    ensures Refer(so, pairs, manifest, files) == so
  {
  }

  /** The path of the package document that the container names. */
  function PackageOf(files: Archive): Option<string>
  {
    if CONTAINER_PATH !in files then None
    else
      match PackagePath(Read(files[CONTAINER_PATH], "rootfile"))
      case None => None
      case Some(reference) => Paths.Resolve("container.xml", reference)
  }

  /** Every spine reference of the package is in its manifest and every selected file in
      the archive; `chapters` are all the selected references, in spine order. */
  predicate Lists(package: string, text: string, files: Archive, chapters: seq<Chapter>)
  {
    var manifest, references := ManifestOf(Read(text, "item"), package), Read(text, "itemref");
    Readable(references, manifest, files) && chapters == Selected(references, manifest)
  }

  /** What a successful parse has found: the package is there and lists some chapters. */
  predicate ReadsAs(files: Archive, chapters: seq<Chapter>)
  {
    var package := PackageOf(files);
    && package.Some? && package.value in files
    && Lists(package.value, files[package.value], files, chapters) && chapters != []
  }

  lemma {:induction false} SelectedFromManifest(references: seq<seq<Pair>>)
    ensures Selected(references, map[]) == []
  {
    if references != [] {
      SelectedFromManifest(references[..|references| - 1]);
    }
  }

  /** For any archive at all, parsing succeeds with some chapters exactly when they are
      what the package selects. */
  lemma ParseIff(files: Archive, chapters: seq<Chapter>)
    ensures Parse(files) == Ok(chapters) <==> ReadsAs(files, chapters)
  {
    hide Read, ManifestOf, SpineOf, Readable, Selected, Paths.Resolve, Lookup;
    var package := PackageOf(files);
    if package.Some? && package.value in files {
      var text := files[package.value];
      SelectedFromManifest(Read(text, "itemref"));
      SpineIff(Read(text, "itemref"), ManifestOf(Read(text, "item"), package.value), files);
    }
  }

  lemma ParsedExactly(files: Archive)
    ensures forall chapters :: Parse(files) == Ok(chapters) <==> ReadsAs(files, chapters)
  {
    hide Parse, ReadsAs;
    forall chapters
      ensures Parse(files) == Ok(chapters) <==> ReadsAs(files, chapters)
    {
      ParseIff(files, chapters);
    }
  }

  // ---------------------------------------------------------------- printed books

  /** What a printed text holds of an element name is what was written. */
  lemma PrintedIsRead(items: seq<Item>, requested: string)
    requires forall item :: item in items ==> ValidItem(item)
    ensures Read(Print(items), requested) == ElementPairs(items, requested)
  {
    DocumentPairs(items, requested);
  }
}
