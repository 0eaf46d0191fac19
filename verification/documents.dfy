/**
 * The document side of the document processor: the `Document` record,
 * file names and suffixes as `pathlib` reads them, the supported-extension
 * filter and the extractor dispatch, the assembly of chunks into
 * `Document`s, the three loaders with their extraction results given as
 * inputs, and `filter_changed_documents`.
 *
 * Loading uses `SplitFixed`, the segmenter with its evidently intended
 * progress guarantee; `Splitter.FixedAgrees` relates it to `split_text` as
 * written.
 */
module Documents {
  import opened Wrappers
  import opened PyStrings
  import opened Segmenter
  import opened Splitter

  /** The metadata dictionary of a chunk. `uploadType` is present only for
      direct uploads. */
  datatype Metadata = Metadata(
    fileName: string,
    fileType: string,
    chunkIndex: int,
    totalChunks: int,
    uploadType: Option<string>)

  /** One chunk of one source file. */
  datatype Document = Document(content: string, source: string, chunkId: int, metadata: Metadata)

  // ---------------------------------------------------------------------
  // Paths.

  /** `Path(path).name`: the last `/`-separated component. */
  function Name(path: string): (r: string)
    ensures !Contains(r, "/")
  {
    LastPiece(path, "/")
  }

  /** A file directly named by a plain component is its own name, and a
      file inside a directory is named by its last component. */
  lemma NameOfPlain(n: string)
    requires !Contains(n, "/")
    ensures Name(n) == n
  {
    SplitNoSep(n, "/");
  }

  lemma NameOfChild(dir: string, n: string)
    requires !Contains(n, "/")
    ensures Name(dir + "/" + n) == n
  {
    SplitLast(dir, "/", n);
  }

  /** `PurePath.suffix` of a file name: from its last `.` to the end, unless
      that dot is the first or the last character, and then empty. */
  function Suffix(name: string): (r: string)
    ensures r == [] || (2 <= |r| < |name| && r[0] == '.' && r == name[|name| - |r|..])
    ensures forall k :: |name| - |r| < k < |name| ==> name[k] != '.'
  {
    var i := RFind(name, ".", 0, |name|);
    LastDot(name, i);
    if 0 < i < |name| - 1 then name[i..] else []
  }

  /** What `rfind('.')` on a whole name tells about the dots in it. */
  lemma LastDot(name: string, i: int)
    requires i == RFind(name, ".", 0, |name|)
    ensures i == -1 || (0 <= i < |name| && name[i] == '.')
    ensures forall k :: i < k < |name| ==> name[k] != '.'
  {
    RFindMisses(name, ".", 0, |name|);
    if i >= 0 {
      assert name[i..i + 1] == ".";
    }
    forall k | i < k < |name| ensures name[k] != '.' {
      if name[k] == '.' {
        assert name[k..k + 1] == ".";
        assert IsAt(name, ".", k);
      }
    }
  }

  /** A non-empty stem followed by a dot and a dot-free, non-empty
      extension has exactly that extension as its suffix. */
  lemma SuffixOf(stem: string, ext: string)
    requires stem != [] && |ext| >= 2 && ext[0] == '.'
    requires forall k :: 1 <= k < |ext| ==> ext[k] != '.'
    ensures Suffix(stem + ext) == ext
  {
    var name := stem + ext;
    var i := RFind(name, ".", 0, |name|);
    LastDot(name, i);
    assert name[|stem|] == '.';
    assert i == |stem|;
    assert name[i..] == ext;
  }

  /** The extensions the directory loader picks up. */
  const SupportedExtensions: set<string> :=
    {".md", ".txt", ".py", ".js", ".json", ".yaml", ".yml", ".pdf", ".docx", ".pptx", ".html", ".csv"}

  /** The directory loader's filter: the suffix, exactly as written, is
      supported. */
  predicate Selected(path: string) {
    Suffix(Name(path)) in SupportedExtensions
  }

  /** Every supported extension is lower case. */
  lemma SupportedLowerCase(e: string)
    ensures e in SupportedExtensions ==> Lower(e) == e
  {
    if e in SupportedExtensions {
      assert forall k :: 0 <= k < |e| ==> !('A' <= e[k] <= 'Z');
    }
  }

  /** The content extractors. */
  datatype Extractor = PdfReader | DocxReader | PptxReader | TextDecoder

  /** The dispatch of both extraction paths on a lower-cased extension:
      anything but the three document formats is read as UTF-8 text. */
  function ExtractorFor(ext: string): (e: Extractor)
    ensures e == TextDecoder <==> ext !in {".pdf", ".docx", ".pptx"}
  {
    if ext == ".pdf" then PdfReader
    else if ext == ".docx" then DocxReader
    else if ext == ".pptx" then PptxReader
    else TextDecoder
  }

  /** `_extract_content` lower-cases the path's suffix before dispatching;
      for a path the walk selects, that is the dispatch on the suffix as
      written. */
  function PathExtractor(path: string): (e: Extractor)
    ensures Selected(path) ==> e == ExtractorFor(Suffix(Name(path)))
  {
    SupportedLowerCase(Suffix(Name(path)));
    ExtractorFor(Lower(Suffix(Name(path))))
  }

  /** A name with no `/` in any position contains no `/`. */
  lemma NoSlash(n: string)
    requires forall i :: 0 <= i < |n| ==> n[i] != '/'
    ensures !Contains(n, "/")
  {
    NeverAt(n, "/", 0);
  }

  /** The suffix of a file in a directory is its own extension. */
  lemma ChildSuffix(dir: string, stem: string, ext: string)
    requires stem != [] && |ext| >= 2 && ext[0] == '.'
    requires forall k :: 1 <= k < |ext| ==> ext[k] != '.'
    requires forall k :: 0 <= k < |stem + ext| ==> (stem + ext)[k] != '/'
    ensures Suffix(Name(dir + "/" + (stem + ext))) == ext
  {
    NoSlash(stem + ext);
    NameOfChild(dir, stem + ext);
    SuffixOf(stem, ext);
  }

  /** A file directly inside a directory is selected exactly when its
      extension, as written, is supported, and is read by the extractor of
      its lower-cased extension. */
  lemma ChildDispatch(dir: string, stem: string, ext: string)
    requires stem != [] && |ext| >= 2 && ext[0] == '.'
    requires forall k :: 1 <= k < |ext| ==> ext[k] != '.'
    requires forall k :: 0 <= k < |stem + ext| ==> (stem + ext)[k] != '/'
    ensures Selected(dir + "/" + (stem + ext)) <==> ext in SupportedExtensions
    ensures PathExtractor(dir + "/" + (stem + ext)) == ExtractorFor(Lower(ext))
  {
    ChildSuffix(dir, stem, ext);
  }

  /** A lower-case supported suffix in any directory is selected and
      dispatched on. */
  lemma LowerCaseSelected(dir: string)
    ensures Selected(dir + "/report.pdf") && PathExtractor(dir + "/report.pdf") == PdfReader
  {
    assert ".pdf" in SupportedExtensions by {
      assert SupportedExtensions == {".md", ".txt", ".py", ".js", ".json", ".yaml", ".yml", ".pdf", ".docx", ".pptx", ".html", ".csv"};
    }
    assert Lower(".pdf") == ".pdf";
    assert dir + "/report.pdf" == dir + "/" + ("report" + ".pdf");
    ChildDispatch(dir, "report", ".pdf");
  }

  /** Selection is case-sensitive but dispatch is not: `REPORT.PDF` in a
      directory is skipped by the walk, while the same file given directly
      is read as a PDF. */
  lemma UpperCaseSkipped(dir: string)
    ensures !Selected(dir + "/REPORT.PDF") && PathExtractor(dir + "/REPORT.PDF") == PdfReader
  {
    assert ".PDF" !in SupportedExtensions by {
      assert SupportedExtensions == {".md", ".txt", ".py", ".js", ".json", ".yaml", ".yml", ".pdf", ".docx", ".pptx", ".html", ".csv"};
    }
    assert Lower(".PDF") == ".pdf";
    assert dir + "/REPORT.PDF" == dir + "/" + ("REPORT" + ".PDF");
    ChildDispatch(dir, "REPORT", ".PDF");
  }

  /** An uploaded file of an unknown extension is decoded as text. */
  lemma UnknownUploadIsText()
    ensures ExtractorFor(Lower(Suffix("setup.exe"))) == TextDecoder
  {
    assert Suffix("setup.exe") == ".exe" by {
      assert "setup.exe" == "setup" + ".exe";
      SuffixOf("setup", ".exe");
    }
    var e := Lower(".exe");
    assert e == ".exe";
    assert e != ".pdf" by { assert e[1] != ".pdf"[1]; }
    assert |e| != |".docx"| && |e| != |".pptx"|;
  }

  /** A selected path always has a suffix, and every selected path whose
      suffix is not a document format is decoded as text. */
  lemma SelectedDispatch(path: string)
    requires Selected(path)
    ensures Suffix(Name(path)) != []
    ensures Suffix(Name(path)) !in {".pdf", ".docx", ".pptx"} ==> PathExtractor(path) == TextDecoder
  {
  }

  // ---------------------------------------------------------------------
  // Assembly of chunks into documents.

  /** The chunk texts of a batch, in order. */
  function Contents(docs: seq<Document>): (r: seq<string>)
    ensures |r| == |docs|
  {
    seq(|docs|, i requires 0 <= i < |docs| => docs[i].content)
  }

  /** A batch as one loader call produces it: chunk ids and indices are
      positions, every total is the batch size, and the source and the
      file name, type and upload marker are shared. */
  predicate WellFormedBatch(docs: seq<Document>) {
    forall i :: 0 <= i < |docs| ==>
      && docs[i].chunkId == i
      && docs[i].metadata.chunkIndex == i
      && docs[i].metadata.totalChunks == |docs|
      && docs[i].source == docs[0].source
      && docs[i].metadata.fileName == docs[0].metadata.fileName
      && docs[i].metadata.fileType == docs[0].metadata.fileType
      && docs[i].metadata.uploadType == docs[0].metadata.uploadType
  }

  /** The `for idx, chunk in enumerate(chunks)` loop of both loaders: one
      document per chunk, in order, all sharing the given source fields. */
  function Assemble(chunks: seq<string>, source: string, fileName: string, fileType: string,
                    uploadType: Option<string>): (docs: seq<Document>)
    ensures Contents(docs) == chunks
    ensures WellFormedBatch(docs)
    ensures forall d :: d in docs ==>
      && d.source == source && d.metadata.fileName == fileName
      && d.metadata.fileType == fileType && d.metadata.uploadType == uploadType
  {
    seq(|chunks|, i requires 0 <= i < |chunks| =>
      Document(chunks[i], source, i, Metadata(fileName, fileType, i, |chunks|, uploadType)))
  }

  /** A well-formed batch is fully determined by its contents and its
      first document's shared fields. */
  lemma AssembleDetermined(docs: seq<Document>)
    requires docs != [] && WellFormedBatch(docs)
    ensures docs == Assemble(Contents(docs), docs[0].source, docs[0].metadata.fileName,
                             docs[0].metadata.fileType, docs[0].metadata.uploadType)
  {
    var a := Assemble(Contents(docs), docs[0].source, docs[0].metadata.fileName,
                      docs[0].metadata.fileType, docs[0].metadata.uploadType);
    forall i | 0 <= i < |docs| ensures docs[i] == a[i] {
      assert Contents(docs)[i] == docs[i].content;
    }
  }

  // ---------------------------------------------------------------------
  // Loaders. Extraction is an input: `content` is what the extractor
  // returned, empty when it found nothing or failed.

  /** `load_document(path)`: nothing for empty content; otherwise one
      document per chunk with the path as source, the path's name, and its
      suffix exactly as written. */
  function LoadDocument(path: string, content: string, cfg: Config): (docs: seq<Document>)
    requires cfg.chunkSize > 0
    ensures content == [] ==> docs == []
    ensures content != [] ==> Contents(docs) == SplitFixed(content, cfg)
    ensures WellFormedBatch(docs)
    ensures forall d :: d in docs ==>
      && d.source == path && d.metadata.fileName == Name(path)
      && d.metadata.fileType == Suffix(Name(path)) && d.metadata.uploadType == None
  {
    if content == [] then []
    else Assemble(SplitFixed(content, cfg), path, Name(path), Suffix(Name(path)), None)
  }

  /** `load_uploaded_file(file, filename)`: the file name is the source and
      the name, the lower-cased suffix is the type, and every chunk is
      marked as a direct upload. */
  function LoadUploadedFile(filename: string, content: string, cfg: Config): (docs: seq<Document>)
    requires cfg.chunkSize > 0
    ensures content == [] ==> docs == []
    ensures content != [] ==> Contents(docs) == SplitFixed(content, cfg)
    ensures WellFormedBatch(docs)
    ensures forall d :: d in docs ==>
      && d.source == filename && d.metadata.fileName == filename
      && d.metadata.fileType == Lower(Suffix(Name(filename)))
      && d.metadata.uploadType == Some("direct_upload")
  {
    if content == [] then []
    else Assemble(SplitFixed(content, cfg), filename, filename, Lower(Suffix(Name(filename))),
                  Some("direct_upload"))
  }

  /** A short non-empty text is loaded as one untrimmed chunk. */
  lemma ShortFileOneChunk(path: string, content: string, cfg: Config)
    requires cfg.chunkSize > 0 && 0 < |content| <= cfg.chunkSize
    ensures |LoadDocument(path, content, cfg)| == 1
    ensures LoadDocument(path, content, cfg)[0].content == content
    ensures LoadDocument(path, content, cfg)[0].metadata.totalChunks == 1
  {
    assert Contents(LoadDocument(path, content, cfg)) == [content];
  }

  /** A file found by the directory walk, with its extracted content. */
  datatype SourceFile = SourceFile(path: string, content: string)

  /** What one file of the walk contributes: its documents when the filter
      selects it, nothing otherwise. */
  function Contribution(f: SourceFile, cfg: Config): (docs: seq<Document>)
    requires cfg.chunkSize > 0
    ensures forall d :: d in docs ==>
      && d.source == f.path && Selected(f.path)
      && d.metadata.fileName == Name(f.path) && d.metadata.fileType == Suffix(Name(f.path))
  {
    if Selected(f.path) then LoadDocument(f.path, f.content, cfg) else []
  }

  /** `load_documents_from_directory` over the files of the walk, in walk
      order: the selected files' documents, concatenated. */
  function LoadDirectory(files: seq<SourceFile>, cfg: Config): (docs: seq<Document>)
    requires cfg.chunkSize > 0
    ensures forall d :: d in docs ==> Selected(d.source)
    decreases |files|
  {
    if files == [] then []
    else
      Contribution(files[0], cfg) + LoadDirectory(files[1..], cfg)
  }

  /** Every loaded document comes from a selected file of the walk and
      carries that file's name and suffix. */
  lemma LoadDirectorySources(files: seq<SourceFile>, cfg: Config)
    requires cfg.chunkSize > 0
    ensures forall d :: d in LoadDirectory(files, cfg) ==>
      && (exists k :: 0 <= k < |files| && files[k].path == d.source && Selected(d.source))
      && d.metadata.fileName == Name(d.source)
      && d.metadata.fileType == Suffix(Name(d.source))
  {
    forall d | d in LoadDirectory(files, cfg)
      ensures && (exists k :: 0 <= k < |files| && files[k].path == d.source && Selected(d.source))
              && d.metadata.fileName == Name(d.source)
              && d.metadata.fileType == Suffix(Name(d.source))
    {
      var f := LoadedFrom(files, cfg, d);
      var k :| 0 <= k < |files| && files[k] == f;
    }
  }

  /** The file of the walk that a loaded document comes from. */
  lemma {:induction false} LoadedFrom(files: seq<SourceFile>, cfg: Config, d: Document) returns (f: SourceFile)
    requires cfg.chunkSize > 0 && d in LoadDirectory(files, cfg)
    ensures f in files && f.path == d.source && Selected(d.source)
    ensures d.metadata.fileName == Name(d.source) && d.metadata.fileType == Suffix(Name(d.source))
    decreases |files|
  {
    LoadDirectoryCons(files, cfg);
    if d in Contribution(files[0], cfg) {
      f := files[0];
    } else {
      InEither(d, Contribution(files[0], cfg), LoadDirectory(files[1..], cfg));
      f := LoadedFrom(files[1..], cfg, d);
      InTail(files, f);
    }
  }

  /** Membership in a concatenation is membership in one of its parts. */
  lemma InEither(d: Document, a: seq<Document>, b: seq<Document>)
    requires d in a + b && d !in a
    ensures d in b
  {
  }

  /** Membership in the tail of a walk is membership in the walk. */
  lemma InTail(files: seq<SourceFile>, f: SourceFile)
    requires files != [] && f in files[1..]
    ensures f in files
  {
  }

  /** The walk's documents split at any point of the walk. */
  lemma {:induction false} LoadDirectoryConcat(a: seq<SourceFile>, b: seq<SourceFile>, cfg: Config)
    requires cfg.chunkSize > 0
    ensures LoadDirectory(a + b, cfg) == LoadDirectory(a, cfg) + LoadDirectory(b, cfg)
    decreases |a|
  {
    if a == [] {
      assert a + b == b;
    } else {
      assert (a + b)[1..] == a[1..] + b;
      LoadDirectoryConcat(a[1..], b, cfg);
      Regroup(Contribution(a[0], cfg), LoadDirectory(a[1..], cfg), LoadDirectory(b, cfg));
    }
  }

  lemma LoadDirectoryCons(files: seq<SourceFile>, cfg: Config)
    requires cfg.chunkSize > 0 && files != []
    ensures LoadDirectory(files, cfg) == Contribution(files[0], cfg) + LoadDirectory(files[1..], cfg)
  {
  }

  /** Each file of the walk contributes, in its place, exactly its own
      documents when it is selected and nothing otherwise. */
  lemma LoadDirectoryAt(front: seq<SourceFile>, f: SourceFile, back: seq<SourceFile>, cfg: Config)
    requires cfg.chunkSize > 0
    ensures LoadDirectory(front + [f] + back, cfg) ==
      LoadDirectory(front, cfg) + Contribution(f, cfg) + LoadDirectory(back, cfg)
  {
    var rest := [f] + back;
    assert front + [f] + back == front + rest;
    LoadDirectoryConcat(front, rest, cfg);
    assert LoadDirectory(rest, cfg) == Contribution(f, cfg) + LoadDirectory(back, cfg) by {
      LoadDirectoryCons(rest, cfg);
      assert rest[0] == f && rest[1..] == back;
    }
    Splice(LoadDirectory(front + rest, cfg), LoadDirectory(front, cfg), LoadDirectory(rest, cfg),
      Contribution(f, cfg), LoadDirectory(back, cfg));
  }

  lemma Splice(all: seq<Document>, x: seq<Document>, r: seq<Document>, c: seq<Document>, z: seq<Document>)
    requires all == x + r && r == c + z
    ensures all == x + c + z
  {
  }

  /** Unselected files contribute nothing: only selected files count. */
  lemma {:induction false} LoadDirectorySkips(files: seq<SourceFile>, cfg: Config)
    requires cfg.chunkSize > 0
    requires forall k :: 0 <= k < |files| ==> !Selected(files[k].path)
    ensures LoadDirectory(files, cfg) == []
    decreases |files|
  {
    if files != [] {
      LoadDirectorySkips(files[1..], cfg);
    }
  }

  // ---------------------------------------------------------------------
  // `filter_changed_documents`.

  /** Python's `any(c in source for c in changed)`. */
  predicate MentionsAny(source: string, changed: seq<string>) {
    exists k :: 0 <= k < |changed| && Contains(source, changed[k])
  }

  /** The nested loop with `break`: a document is kept, once, as soon as
      one changed path occurs in its source. */
  function FilterChanged(docs: seq<Document>, changed: seq<string>): (r: seq<Document>)
    ensures |r| <= |docs|
    ensures forall d :: d in r ==> d in docs && MentionsAny(d.source, changed)
    decreases |docs|
  {
    if docs == [] then []
    else
      (if MentionsAny(docs[0].source, changed) then [docs[0]] else [])
      + FilterChanged(docs[1..], changed)
  }

  /** A document is in the result exactly when it is in the input and its
      source mentions a changed path. */
  lemma {:induction false} FilterMembership(docs: seq<Document>, changed: seq<string>, d: Document)
    ensures d in FilterChanged(docs, changed) <==> d in docs && MentionsAny(d.source, changed)
    decreases |docs|
  {
    if docs != [] {
      FilterMembership(docs[1..], changed, d);
      assert docs == [docs[0]] + docs[1..];
    }
  }

  /** Filtering distributes over concatenation, so it keeps input order. */
  lemma {:induction false} FilterConcat(a: seq<Document>, b: seq<Document>, changed: seq<string>)
    ensures FilterChanged(a + b, changed) == FilterChanged(a, changed) + FilterChanged(b, changed)
    decreases |a|
  {
    if a == [] {
      assert a + b == b;
    } else {
      var head := if MentionsAny(a[0].source, changed) then [a[0]] else [];
      assert FilterChanged(a + b, changed) == head + FilterChanged(a[1..] + b, changed) by {
        assert (a + b)[0] == a[0];
        assert (a + b)[1..] == a[1..] + b;
      }
      FilterConcat(a[1..], b, changed);
      Regroup(head, FilterChanged(a[1..], changed), FilterChanged(b, changed));
    }
  }

  lemma Regroup(h: seq<Document>, x: seq<Document>, y: seq<Document>)
    ensures h + (x + y) == (h + x) + y
  {
  }

  /** Each input document appears in the result at most as often as in the
      input. */
  lemma {:induction false} FilterAtMostOnce(docs: seq<Document>, changed: seq<string>)
    ensures multiset(FilterChanged(docs, changed)) <= multiset(docs)
    decreases |docs|
  {
    if docs != [] {
      FilterAtMostOnce(docs[1..], changed);
      assert docs == [docs[0]] + docs[1..];
    }
  }

  /** Filtering twice with the same changes is filtering once. */
  lemma {:induction false} FilterIdempotent(docs: seq<Document>, changed: seq<string>)
    ensures FilterChanged(FilterChanged(docs, changed), changed) == FilterChanged(docs, changed)
    decreases |docs|
  {
    if docs != [] {
      var head := if MentionsAny(docs[0].source, changed) then [docs[0]] else [];
      FilterConcat(head, FilterChanged(docs[1..], changed), changed);
      FilterIdempotent(docs[1..], changed);
    }
  }

  /** An empty change list selects nothing. */
  lemma {:induction false} FilterNoChanges(docs: seq<Document>)
    ensures FilterChanged(docs, []) == []
    decreases |docs|
  {
    if docs != [] {
      FilterNoChanges(docs[1..]);
    }
  }

  /** An empty string among the changes selects every document. */
  lemma {:induction false} FilterEmptyPath(docs: seq<Document>)
    ensures FilterChanged(docs, [""]) == docs
    decreases |docs|
  {
    if docs != [] {
      assert IsAt(docs[0].source, [""][0], 0);
      assert MentionsAny(docs[0].source, [""]);
      FilterEmptyPath(docs[1..]);
      assert docs == [docs[0]] + docs[1..];
    }
  }

  /** A document of the given source, used by the examples below. */
  function ChunkOf(source: string): Document {
    Document("", source, 0, Metadata("", "", 0, 1, None))
  }

  /** Substring matching over-matches: a change to `docs/api.md` also
      selects `legacy/docs/api.md`. */
  lemma FilterOverMatches()
    ensures FilterChanged([ChunkOf("repo/legacy/docs/api.md")], ["docs/api.md"])
            == [ChunkOf("repo/legacy/docs/api.md")]
  {
    var s := "repo/legacy/docs/api.md";
    assert s[12..23] == "docs/api.md";
    assert IsAt(s, "docs/api.md", 12);
    assert Contains(s, ["docs/api.md"][0]);
    assert MentionsAny(s, ["docs/api.md"]);
  }

  // ---------------------------------------------------------------------
  // The evidently intended match: the changed path, joined to the
  // directory that was walked, is the document's source.

  /** `source` is one of the changed paths under `root`. */
  predicate IsChangedFile(root: string, source: string, changed: seq<string>) {
    exists k :: 0 <= k < |changed| && source == root + "/" + changed[k]
  }

  function FilterChangedExact(root: string, docs: seq<Document>, changed: seq<string>): (r: seq<Document>)
    ensures |r| <= |docs|
    ensures forall d :: d in r ==> d in docs && IsChangedFile(root, d.source, changed)
    decreases |docs|
  {
    if docs == [] then []
    else
      (if IsChangedFile(root, docs[0].source, changed) then [docs[0]] else [])
      + FilterChangedExact(root, docs[1..], changed)
  }

  lemma {:induction false} ExactMembership(root: string, docs: seq<Document>, changed: seq<string>, d: Document)
    ensures d in FilterChangedExact(root, docs, changed) <==> d in docs && IsChangedFile(root, d.source, changed)
    decreases |docs|
  {
    if docs != [] {
      ExactMembership(root, docs[1..], changed, d);
      assert docs == [docs[0]] + docs[1..];
    }
  }

  /** Every exact match is also a substring match, so the intended filter
      only drops the over-matches. */
  lemma {:induction false} ExactWithinLoose(root: string, docs: seq<Document>, changed: seq<string>)
    ensures forall d :: d in FilterChangedExact(root, docs, changed) ==> d in FilterChanged(docs, changed)
  {
    forall d | d in FilterChangedExact(root, docs, changed) ensures d in FilterChanged(docs, changed) {
      ExactMembership(root, docs, changed, d);
      var k :| 0 <= k < |changed| && d.source == root + "/" + changed[k];
      var off := |root| + 1;
      assert d.source[off..off + |changed[k]|] == changed[k];
      assert IsAt(d.source, changed[k], off);
      FilterMembership(docs, changed, d);
    }
  }

  /** The intended filter does not select the nested namesake. */
  lemma ExactRejectsNested()
    ensures FilterChangedExact("repo", [ChunkOf("repo/legacy/docs/api.md")], ["docs/api.md"]) == []
  {
    var s := "repo/legacy/docs/api.md";
    assert s != "repo" + "/" + "docs/api.md" by {
      assert |s| != |"repo" + "/" + "docs/api.md"|;
    }
    assert !IsChangedFile("repo", s, ["docs/api.md"]);
  }
}
