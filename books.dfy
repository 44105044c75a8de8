/** The book controller: list every book with public URLs for its files, and
    download one file of a book in the requested format. */
module Books {
  import opened Common
  import opened Query
  import opened Store

  /** Where the public disk lives below the storage directory, and the folder
      of book files on that disk. */
  const PublicDisk := "app/public/"
  const BooksFolder := "books/"

  /** The URL prefix under which the public disk is served. */
  const PublicUrlPath := "/storage/"

  const PdfMime := "application/pdf"
  const EpubMime := "application/epub+zip"

  /** `url('/storage/books/' . path)` for an application served at `root`. */
  function StorageUrl(root: string, path: string): (url: string)
    ensures url == root + PublicUrlPath + BooksFolder + path
  {
    root + PublicUrlPath + BooksFolder + path
  }

  /** Different files get different URLs. */
  lemma StorageUrlInjective(root: string, p: string, q: string)
    requires StorageUrl(root, p) == StorageUrl(root, q)
    ensures p == q
  {
    var n := |root + PublicUrlPath + BooksFolder|;
    assert p == StorageUrl(root, p)[n..];
  }

  /** A book as `index` returns it: each URL attribute is set from its path
      when the path is truthy, and left as it was otherwise. */
  function Decorated(b: Book, root: string): (r: Book)
    ensures r.id == b.id && r.pdfPath == b.pdfPath && r.epubPath == b.epubPath
    ensures Truthy(b.pdfPath) ==> r.pdfUrl == Some(StorageUrl(root, b.pdfPath.value))
    ensures !Truthy(b.pdfPath) ==> r.pdfUrl == b.pdfUrl
    ensures Truthy(b.epubPath) ==> r.epubUrl == Some(StorageUrl(root, b.epubPath.value))
    ensures !Truthy(b.epubPath) ==> r.epubUrl == b.epubUrl
  {
    var withPdf := if Truthy(b.pdfPath) then b.(pdfUrl := Some(StorageUrl(root, b.pdfPath.value))) else b;
    if Truthy(b.epubPath) then withPdf.(epubUrl := Some(StorageUrl(root, b.epubPath.value))) else withPdf
  }

  /** Decorating a decorated book changes nothing. */
  lemma DecoratedIdempotent(b: Book, root: string)
    ensures Decorated(Decorated(b, root), root) == Decorated(b, root)
  {
  }

  function AnyBook(): Book -> bool
  {
    (b: Book) => true
  }

  /** `Book::all()`, in primary-key order. */
  function AllBooks(books: map<BookId, Book>): (rows: seq<Book>)
    ensures |rows| == |books|
    ensures (set b | b in rows) == Matching(books, AnyBook())
    ensures forall i, j | 0 <= i < j < |rows| :: rows[i].id <= rows[j].id
  {
    var rows := SortedRows(books, AnyBook(), (b: Book) => b.id as int);
    assert Where(books, AnyBook()) == books.Keys;
    rows
  }

  /** The body of `index`'s loop for one loaded model, kept as its own step
      because the source assigns the two URL attributes one after the other,
      each under its own `if`; `Decorated` is the value it must reach. */
  method Decorate(book: Book, root: string) returns (r: Book)
    ensures r == Decorated(book, root)
  {
    r := book;
    if Truthy(r.pdfPath) {
      r := r.(pdfUrl := Some(StorageUrl(root, r.pdfPath.value)));
    }
    if Truthy(r.epubPath) {
      r := r.(epubUrl := Some(StorageUrl(root, r.epubPath.value)));
    }
  }

  /** Every stored book is among those `Book::all()` loads. */
  lemma EveryBookIsListed(books: map<BookId, Book>, k: BookId)
    requires k in books
    ensures books[k] in AllBooks(books)
  {
    assert books[k] in Matching(books, AnyBook());
    assert books[k] in (set b | b in AllBooks(books));
  }

  /** `Book::all()` loaded into a fresh array of models. */
  method Load(db: Database) returns (loaded: array<Book>)
    ensures fresh(loaded)
    ensures loaded[..] == AllBooks(db.books)
  {
    var rows := AllBooks(db.books);
    loaded := new Book[|rows|](i requires 0 <= i < |rows| => rows[i]);
    assert loaded[..] == rows;
  }

  /** The loop of `index`: set the URL attributes of each loaded model, in place. */
  method DecorateAll(books: array<Book>, root: string)
    modifies books
    ensures forall i | 0 <= i < books.Length :: books[i] == Decorated(old(books[i]), root)
  {
    for i := 0 to books.Length
      invariant forall j | 0 <= j < i :: books[j] == Decorated(old(books[j]), root)
      invariant forall j | i <= j < books.Length :: books[j] == old(books[j])
    {
      books[i] := Decorate(books[i], root);
    }
  }

  /** `index`: load every book, then decorate the loaded models; the table
      itself is not written. */
  method Index(db: Database, root: string) returns (listed: array<Book>)
    ensures fresh(listed)
    ensures listed.Length == |db.books|
    ensures forall i | 0 <= i < listed.Length :: listed[i] == Decorated(AllBooks(db.books)[i], root)
  {
    listed := Load(db);
    DecorateAll(listed, root);
  }

  /** The part of `s` after its last '/': its longest suffix without a slash. */
  function AfterLastSlash(s: string): (r: string)
    ensures '/' !in r
    ensures |r| <= |s| && s[|s| - |r|..] == r
    ensures |r| < |s| ==> s[|s| - |r| - 1] == '/'
  {
    if s == [] || s[|s| - 1] == '/' then []
    else AfterLastSlash(s[..|s| - 1]) + [s[|s| - 1]]
  }

  /** `s` without the slashes at its end. */
  function TrimTrailingSlashes(s: string): (r: string)
    ensures |r| <= |s| && s[..|r|] == r
    ensures r == [] || r[|r| - 1] != '/'
    ensures forall i | |r| <= i < |s| :: s[i] == '/'
  {
    if s != [] && s[|s| - 1] == '/' then TrimTrailingSlashes(s[..|s| - 1]) else s
  }

  /** PHP's `basename`: trailing slashes are dropped, then what follows the
      last remaining slash is the name. */
  function Basename(path: string): (name: string)
    ensures '/' !in name
    ensures var t := TrimTrailingSlashes(path);
      && |name| <= |t| && t[|t| - |name|..] == name
      && (|name| < |t| ==> t[|t| - |name| - 1] == '/')
  {
    AfterLastSlash(TrimTrailingSlashes(path))
  }

  /** The name after the last slash of a joined path is the joined name. */
  lemma {:induction false} AfterLastSlashOfJoin(dir: string, name: string)
    requires '/' !in name
    ensures AfterLastSlash(dir + "/" + name) == name
  {
    var s := dir + "/" + name;
    if name == [] {
      assert s[|s| - 1] == '/';
    } else {
      var init := name[..|name| - 1];
      assert s[..|s| - 1] == dir + "/" + init;
      assert '/' !in init by {
        forall i | 0 <= i < |init| ensures init[i] != '/' {
          assert init[i] == name[i];
        }
      }
      AfterLastSlashOfJoin(dir, init);
      assert s[|s| - 1] == name[|name| - 1];
      assert name == init + [name[|name| - 1]];
    }
  }

  /** A file name placed in a directory is what `basename` gives back. */
  lemma BasenameOfJoin(dir: string, name: string)
    requires name != [] && '/' !in name
    ensures Basename(dir + "/" + name) == name
  {
    var s := dir + "/" + name;
    assert s[|s| - 1] == name[|name| - 1];
    assert TrimTrailingSlashes(s) == s;
    AfterLastSlashOfJoin(dir, name);
  }

  /** The file a download sends and the response it sends it with. */
  datatype FileDownload = FileDownload(storagePath: string, filename: string, mimeType: string)

  /** `query('format', 'pdf') === 'epub'`: an absent format reads as "pdf". */
  predicate WantsEpub(format: Option<string>)
  {
    format == Some("epub")
  }

  /** The stored path of the file the format asks for. */
  function SelectedPath(b: Book, format: Option<string>): (p: Option<string>)
    ensures format == Some("epub") ==> p == b.epubPath
    ensures format != Some("epub") ==> p == b.pdfPath
  {
    if WantsEpub(format) then b.epubPath else b.pdfPath
  }

  /** `download($id)`: 404 for an unknown book, "File not found." when the
      selected path is falsy, "File not found on server." when no such file is
      on `disk` (the set of existing files below the storage directory), and
      otherwise the file under its base name with the format's MIME type. */
  function Download(books: map<BookId, Book>, id: nat, format: Option<string>, disk: set<string>)
    : (r: Result<FileDownload>)
    ensures id !in books <==> r == Err(NotFound)
    ensures id in books ==> (r == Err(FileNotFound) <==> !Truthy(SelectedPath(books[id], format)))
    ensures id in books && Truthy(SelectedPath(books[id], format)) ==>
      (r == Err(FileNotOnServer) <==> PublicDisk + BooksFolder + SelectedPath(books[id], format).value !in disk)
    ensures r.Err? ==> r.failure == NotFound || r.failure == FileNotFound || r.failure == FileNotOnServer
    ensures (&& id in books && Truthy(SelectedPath(books[id], format))
             && PublicDisk + BooksFolder + SelectedPath(books[id], format).value in disk) ==> r.Ok?
    ensures r.Ok? ==>
      var path := SelectedPath(books[id], format).value;
      && r.value.storagePath == PublicDisk + BooksFolder + path
      && r.value.storagePath in disk
      && r.value.filename == Basename(path)
      && (r.value.mimeType == EpubMime <==> WantsEpub(format))
      && (r.value.mimeType == PdfMime <==> !WantsEpub(format))
  {
    if id !in books then Err(NotFound)
    else
      var path := SelectedPath(books[id], format);
      if !Truthy(path) then Err(FileNotFound)
      else
        var storagePath := PublicDisk + BooksFolder + path.value;
        if storagePath !in disk then Err(FileNotOnServer)
        else Ok(FileDownload(storagePath, Basename(path.value), if WantsEpub(format) then EpubMime else PdfMime))
  }

  /** Leaving the format out is asking for the PDF. */
  lemma DownloadDefaultsToPdf(books: map<BookId, Book>, id: nat, disk: set<string>)
    ensures Download(books, id, None, disk) == Download(books, id, Some("pdf"), disk)
  {
  }

  /** A missing path is reported before the disk is consulted. */
  lemma MissingPathIgnoresDisk(books: map<BookId, Book>, id: nat, format: Option<string>,
                               disk: set<string>, other: set<string>)
    requires id in books && !Truthy(SelectedPath(books[id], format))
    ensures Download(books, id, format, disk) == Download(books, id, format, other)
  {
  }

  /** The public URL of a file on the public disk's book folder is the
      listing's URL for that file. */
  lemma PublicUrlOfBookFile(root: string, path: string)
    ensures (PublicDisk + BooksFolder + path)[|PublicDisk|..] == BooksFolder + path
    ensures root + PublicUrlPath + (BooksFolder + path) == StorageUrl(root, path)
  {
    assert PublicDisk + BooksFolder + path == PublicDisk + (BooksFolder + path);
  }

  /** The file a download serves is the one the listing links to: its path
      on the public disk, served under the public URL prefix, is the URL
      `index` gives the book for that format. */
  lemma DownloadServesTheListedFile(books: map<BookId, Book>, id: nat, format: Option<string>,
                                    disk: set<string>, root: string)
    requires Download(books, id, format, disk).Ok?
    ensures var served := Download(books, id, format, disk).value.storagePath;
      var listed := Decorated(books[id], root);
      Some(root + PublicUrlPath + served[|PublicDisk|..]) ==
        (if WantsEpub(format) then listed.epubUrl else listed.pdfUrl)
  {
    PublicUrlOfBookFile(root, SelectedPath(books[id], format).value);
  }
}
