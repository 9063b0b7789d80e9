/**
 The upload path of hello.py: the extension allow-list, the `allowed_file`
 validator and the branching of the `upload_file` view.

 Werkzeug's `secure_filename` is not part of this model; the view takes it as
 a parameter `secure` about which nothing is assumed.
 */
module Upload {
  import opened Strings

  /** The fixed allow-list of extensions (lower case, without the dot). */
  const AllowedExtensions: set<string> := {"txt", "pdf", "png", "jpg", "jpeg", "gif"}

  /**
   Reference reading of the validator: there is a dot such that no dot follows
   it, and the text after it, lower-cased, is on the allow-list.
   */
  ghost predicate HasAllowedExtension(filename: string) {
    exists i :: 0 <= i < |filename| && filename[i] == '.'
      && (forall j :: i < j < |filename| ==> filename[j] != '.')
      && Lower(filename[i + 1..]) in AllowedExtensions
  }

  /** The text after the last dot, as `rsplit('.', 1)[1]` yields it. */
  function Extension(filename: string): (ext: string)
    requires '.' in filename
    ensures '.' !in ext
    ensures exists stem :: filename == stem + "." + ext
  {
    var parts := RSplitOnce(filename, '.');
    assert filename == parts[0] + "." + parts[1];
    parts[1]
  }

  /** `allowed_file`: the name has a dot and its lower-cased extension is allowed. */
  function AllowedFile(filename: string): (ok: bool)
    ensures ok ==> '.' in filename
    ensures ok ==> |filename| >= 4
  {
    '.' in filename && Lower(Extension(filename)) in AllowedExtensions
  }

  /** The validator agrees with the reference reading on every name. */
  lemma AllowedFileMeaning(filename: string)
    ensures AllowedFile(filename) <==> HasAllowedExtension(filename)
  {
    if AllowedFile(filename) {
      var i := LastIndexOf(filename, '.').value;
      assert filename[i + 1..] == Extension(filename);
    }
    if HasAllowedExtension(filename) {
      var i :| 0 <= i < |filename| && filename[i] == '.'
        && (forall j :: i < j < |filename| ==> filename[j] != '.')
        && Lower(filename[i + 1..]) in AllowedExtensions;
      assert filename == filename[..i] + "." + filename[i + 1..];
      RSplitOnceUnique(filename[..i], filename[i + 1..], '.');
    }
  }

  /**
   The extension examined is exactly the text after the last dot: for any stem
   (dots allowed, empty allowed) and any dot-free extension, the name is
   accepted iff the lower-cased extension is on the allow-list.
   */
  lemma ExtensionAfterLastDot(stem: string, ext: string)
    requires '.' !in ext
    ensures AllowedFile(stem + "." + ext) <==> Lower(ext) in AllowedExtensions
  {
    RSplitOnceUnique(stem, ext, '.');
  }

  /** A name without a dot is always rejected. */
  lemma NoDotRejected(filename: string)
    requires '.' !in filename
    ensures !AllowedFile(filename)
  {
  }

  // Worked cases of the last-dot rule, one per lemma.

  /** Only the final extension counts: "a.b.png" is accepted. */
  lemma InnerDotAccepted()
    ensures AllowedFile("a.b.png")
  {
    assert "a.b.png" == "a.b" + "." + "png";
    ExtensionAfterLastDot("a.b", "png");
    assert Lower("png") == "png";
  }

  /** Only the final extension counts: "x.png.exe" is rejected. */
  lemma DisguisedExtensionRejected()
    ensures !AllowedFile("x.png.exe")
  {
    assert "x.png.exe" == "x.png" + "." + "exe";
    ExtensionAfterLastDot("x.png", "exe");
    assert Lower("exe") == "exe";
  }

  /** A trailing dot leaves an empty extension, which is rejected. */
  lemma TrailingDotRejected()
    ensures !AllowedFile("photo.")
  {
    assert "photo." == "photo" + "." + "";
    ExtensionAfterLastDot("photo", "");
  }

  /** An empty stem is fine: ".txt" is accepted. */
  lemma EmptyStemAccepted()
    ensures AllowedFile(".txt")
  {
    assert ".txt" == "" + "." + "txt";
    ExtensionAfterLastDot("", "txt");
    assert Lower("txt") == "txt";
  }

  /** An upper-case extension is accepted like its lower-case form. */
  lemma UpperCaseAccepted()
    ensures AllowedFile("photo.JPG")
  {
    assert "photo.JPG" == "photo" + "." + "JPG";
    ExtensionAfterLastDot("photo", "JPG");
    assert Lower("JPG") == "jpg";
  }

  /** The name with the text after its last dot lower-cased. */
  function LowerExtension(filename: string): (r: string)
    ensures '.' in r <==> '.' in filename
    ensures |r| == |filename|
    ensures '.' !in filename ==> r == filename
    ensures '.' in filename ==> Extension(r) == Lower(Extension(filename))
    ensures '.' in filename ==>
      r[..|filename| - |Extension(filename)|] == filename[..|filename| - |Extension(filename)|]
  {
    if '.' !in filename then filename
    else
      var parts := RSplitOnce(filename, '.');
      LowerKeepsDots(parts[1]);
      RSplitOnceUnique(parts[0], Lower(parts[1]), '.');
      RSplitOnceUnique(parts[0], parts[1], '.');
      parts[0] + "." + Lower(parts[1])
  }

  /** Only the case of the extension is ignored: lower-casing it changes nothing. */
  lemma CaseInsensitiveExtension(filename: string)
    ensures AllowedFile(filename) == AllowedFile(LowerExtension(filename))
  {
    if '.' in filename {
      var parts := RSplitOnce(filename, '.');
      LowerKeepsDots(parts[1]);
      ExtensionAfterLastDot(parts[0], parts[1]);
      ExtensionAfterLastDot(parts[0], Lower(parts[1]));
      LowerIdempotent(parts[1]);
    }
  }

  /** Lower-casing the whole name does not change the verdict either. */
  lemma CaseInsensitiveName(filename: string)
    ensures AllowedFile(filename) == AllowedFile(Lower(filename))
  {
    LowerKeepsDots(filename);
    if '.' in filename {
      var parts := RSplitOnce(filename, '.');
      LowerConcat(parts[0] + ".", parts[1]);
      LowerConcat(parts[0], ".");
      assert Lower(".") == ".";
      LowerKeepsDots(parts[1]);
      ExtensionAfterLastDot(parts[0], parts[1]);
      ExtensionAfterLastDot(Lower(parts[0]), Lower(parts[1]));
      LowerIdempotent(parts[1]);
    }
  }

  /** A part of a multipart upload; only its client-supplied file name matters here. */
  datatype FilePart = FilePart(filename: string)

  /** What the view sees of a request: its HTTP method (verb) and its uploaded parts by field name. */
  datatype UploadRequest = UploadRequest(verb: string, files: map<string, FilePart>)

  /** How the view ends. */
  datatype UploadOutcome =
    | BadRequest        // `request.files['file']` has no such key; werkzeug answers 400
    | RedirectBack      // the empty-filename branch, which flashes a notice and redirects to the form
    | Store(name: string) // save under this name and redirect to `uploaded_file`
    | NoResponse        // the view falls off its end and returns None

  /** Werkzeug's FileStorage is truthy exactly when its file name is non-empty. */
  predicate Truthy(part: FilePart) {
    part.filename != ""
  }

  /** The `upload_file` view. The allow-list check runs on the raw name, before `secure`. */
  function UploadFile(request: UploadRequest, secure: string -> string): (out: UploadOutcome)
    ensures request.verb != "POST" ==> out == NoResponse
    ensures out == BadRequest <==> request.verb == "POST" && "file" !in request.files
    ensures out.Store? ==> "file" in request.files && out.name == secure(request.files["file"].filename)
  {
    if request.verb == "POST" then
      if "file" !in request.files then BadRequest
      else
        var part := request.files["file"];
        if part.filename == "" then RedirectBack
        else if Truthy(part) && AllowedFile(part.filename) then Store(secure(part.filename))
        else NoResponse
    else NoResponse
  }

  /** On POST an empty file name always takes the flash-and-redirect branch and never stores. */
  lemma EmptyNameRedirects(request: UploadRequest, secure: string -> string)
    requires request.verb == "POST"
    requires "file" in request.files && request.files["file"].filename == ""
    ensures UploadFile(request, secure) == RedirectBack
  {
  }

  /**
   A file is stored exactly when the request is a POST with a non-empty raw
   name whose last-dot extension is allowed, and it is stored under the
   sanitised raw name; every other POST with a file part, and every GET,
   ends without a response.
   */
  lemma StoreExactly(request: UploadRequest, secure: string -> string)
    requires "file" in request.files
    ensures var raw := request.files["file"].filename;
      UploadFile(request, secure) ==
        if request.verb != "POST" then NoResponse
        else if raw == "" then RedirectBack
        else if HasAllowedExtension(raw) then Store(secure(raw))
        else NoResponse
  {
    AllowedFileMeaning(request.files["file"].filename);
  }

  /** Whether the view stores does not depend on the sanitiser; only the stored name does. */
  lemma DecisionIgnoresSanitizer(request: UploadRequest, secure1: string -> string, secure2: string -> string)
    ensures UploadFile(request, secure1).Store? == UploadFile(request, secure2).Store?
    ensures !UploadFile(request, secure1).Store? ==> UploadFile(request, secure1) == UploadFile(request, secure2)
  {
  }

  /**
   Because the check runs on the raw name, the stored name is not re-checked:
   a sanitiser that strips a leading dot turns the accepted ".txt" into the
   stored name "txt", which has no extension at all.
   */
  lemma StoredNameNotRechecked(secure: string -> string)
    requires secure(".txt") == "txt"
    ensures UploadFile(UploadRequest("POST", map["file" := FilePart(".txt")]), secure) == Store("txt")
    ensures !AllowedFile("txt")
  {
    ExtensionAfterLastDot("", "txt");
    assert Lower("txt") == "txt";
  }
}
