/**
 * The upload middleware: which MIME types the file filter admits, the size limit, and the
 * object key a stored file gets. The uuid and the clock are parameters.
 */
module Uploader {
  import opened Strings
  import opened Numbers

  const Pdf := "application/pdf"
  const Docx := "application/vnd.openxmlformats-officedocument.wordprocessingml.document"
  const Pptx := "application/vnd.openxmlformats-officedocument.presentationml.presentation"
  const Doc := "application/msword"
  const Ppt := "application/vnd.ms-powerpoint"

  /** The MIME types the server stores. */
  const AllowedFileTypes: seq<string> := [Pdf, Docx, Pptx, Doc, Ppt]

  /** The error the filter raises for any other type. */
  const UnsupportedMessage := "Unsupported file type. Allowed types: PDF, DOCX, PPTX"

  /** The size limit: 10 MiB. */
  const MaxFileSize := 10 * 1024 * 1024

  /** The filter's verdict on a file's MIME type: accepted, or an error. */
  datatype FilterVerdict = Accept | Refuse(message: string)

  /** `fileFilter`: accepts exactly the listed types. */
  function FileFilter(mimetype: string): (v: FilterVerdict)
    ensures v.Accept? <==>
      mimetype == Pdf || mimetype == Docx || mimetype == Pptx || mimetype == Doc || mimetype == Ppt
    ensures v.Refuse? ==> v.message == UnsupportedMessage
  {
    if mimetype in AllowedFileTypes then Accept else Refuse(UnsupportedMessage)
  }

  // ---------------------------------------------------------------------------
  // path.extname

  /** The path with its trailing slashes removed. */
  function DropTrailingSlashes(p: string): (r: string)
    ensures |r| <= |p| && r == p[..|r|]
    ensures |r| > 0 ==> r[|r| - 1] != '/'
    ensures forall i :: |r| <= i < |p| ==> p[i] == '/'
  {
    if |p| > 0 && p[|p| - 1] == '/' then DropTrailingSlashes(p[..|p| - 1]) else p
  }

  /** The last segment of a path, trailing slashes ignored. */
  function BaseName(p: string): (b: string)
    ensures '/' !in b
  {
    LastPieceSpec(DropTrailingSlashes(p), '/');
    LastPiece(DropTrailingSlashes(p), '/')
  }

  /**
   * Node's `path.extname`: in the last segment, the text from the last '.' on; empty when the
   * segment has no '.', when its only '.' opens it (a dot-file such as `.bashrc`), and for the
   * segment `..`.
   */
  function ExtName(p: string): (ext: string)
    ensures ext == "" || (ext[0] == '.' && '.' !in ext[1..])
    ensures '/' !in ext
    ensures EndsWith(BaseName(p), ext)
    ensures var b := BaseName(p);
      ext == "" <==> '.' !in b || (b[0] == '.' && '.' !in b[1..]) || b == ".."
  {
    var b := BaseName(p);
    if '.' !in b then ""
    else
      var after := LastPiece(b, '.');
      LastPieceSpec(b, '.');
      LastSepPosition(b, '.');
      if |after| == |b| - 1 || b == ".." then ""
      else
        SuffixCharsIn(b, "." + after);
        "." + after
  }

  /** Every character of a suffix occurs in the whole string. */
  lemma SuffixCharsIn(s: string, t: string)
    requires EndsWith(s, t)
    ensures forall c :: c in t ==> c in s
  {
    forall c | c in t ensures c in s {
      var i :| 0 <= i < |t| && t[i] == c;
      assert s[|s| - |t| + i] == c;
    }
  }

  /** A file name `stem.e` without slashes has the extension `.e`, when `e` holds no '.' and the
      stem is not empty (and the name is not `..`). */
  lemma ExtNameOfName(stem: string, e: string)
    requires |stem| >= 1 && '/' !in stem && '/' !in e && '.' !in e
    requires stem + "." + e != ".."
    ensures ExtName(stem + "." + e) == "." + e
  {
    var name := stem + "." + e;
    assert '/' !in name by {
      forall i | 0 <= i < |name| ensures name[i] != '/' {
        if i < |stem| { assert name[i] == stem[i]; }
        else if i > |stem| { assert name[i] == e[i - |stem| - 1]; }
      }
    }
    assert DropTrailingSlashes(name) == name;
    LastPieceNoSep(name, '/');
    assert BaseName(name) == name;
    LastPieceAfterLast(stem, e, '.');
    assert name[|stem|] == '.';
  }

  /** A name without a '.' has no extension. */
  lemma ExtNameNoDot(name: string)
    requires '/' !in name && '.' !in name
    ensures ExtName(name) == ""
  {
    if |name| > 0 {
      assert name[|name| - 1] in name;
    }
    assert DropTrailingSlashes(name) == name;
    LastPieceNoSep(name, '/');
  }

  // ---------------------------------------------------------------------------
  // object keys

  /** Every object key starts with this. */
  const KeyPrefix := "resources/"

  /** The key under which a file is stored: a `resources/` prefix, the uuid, a '-', the upload
      time in milliseconds, and the original name's extension. */
  function ObjectKey(uuid: string, now: int, originalName: string): (key: string)
    ensures StartsWith(key, KeyPrefix)
    ensures EndsWith(key, ExtName(originalName))
    ensures |key| > 10 + |uuid| && key[10..10 + |uuid|] == uuid && key[10 + |uuid|] == '-'
  {
    var ext := ExtName(originalName);
    var rest := "-" + IntToDecimal(now) + ext;
    ConcatParts(KeyPrefix, uuid, rest);
    ConcatParts(KeyPrefix + uuid, "-" + IntToDecimal(now), ext);
    KeyPrefix + uuid + rest
  }

  /** A key is the prefix, the uuid, '-', the time and the extension, in that order. */
  lemma ObjectKeyParts(uuid: string, now: int, originalName: string)
    ensures ObjectKey(uuid, now, originalName)
         == KeyPrefix + uuid + "-" + IntToDecimal(now) + ExtName(originalName)
  {
    Regroup(KeyPrefix + uuid, "-", IntToDecimal(now), ExtName(originalName));
  }

  lemma Regroup(a: string, b: string, c: string, d: string)
    ensures a + (b + c + d) == a + b + c + d
  {
  }

  /** The three parts of a concatenation can be read back by position. */
  lemma ConcatParts(a: string, b: string, c: string)
    ensures var s := a + b + c;
      && s[..|a|] == a && s[|a|..|a| + |b|] == b && s[|a| + |b|..] == c
      && s[|s| - |c|..] == c
  {
  }

  /** Two files stored with different uuids of the same length (a v4 uuid is always 36
      characters) get different keys. */
  lemma DistinctUuidsDistinctKeys(u1: string, u2: string, t1: int, t2: int, n1: string, n2: string)
    requires |u1| == |u2| && u1 != u2
    ensures ObjectKey(u1, t1, n1) != ObjectKey(u2, t2, n2)
  {
  }

  // ---------------------------------------------------------------------------
  // one upload

  /** A file as the middleware receives it. */
  datatype IncomingFile = IncomingFile(originalName: string, mimetype: string, size: nat)

  /** What the middleware does with a file: refuse its type, refuse its size, or store it. */
  datatype UploadOutcome = TypeRefused(message: string) | TooLarge | Stored(key: string)

  /** The filter runs first; the size limit stops a file that is larger than 10 MiB (exactly
      10 MiB passes); otherwise the file is stored under its key. */
  function Upload(file: IncomingFile, uuid: string, now: int): (out: UploadOutcome)
    ensures out.Stored? <==> FileFilter(file.mimetype).Accept? && file.size <= 10485760
    ensures out.TypeRefused? <==> FileFilter(file.mimetype).Refuse?
    ensures out.TypeRefused? ==> out.message == "Unsupported file type. Allowed types: PDF, DOCX, PPTX"
    ensures out.Stored? ==> StartsWith(out.key, "resources/") && EndsWith(out.key, ExtName(file.originalName))
  {
    match FileFilter(file.mimetype)
    case Refuse(message) => TypeRefused(message)
    case Accept =>
      if file.size > MaxFileSize then TooLarge
      else Stored(ObjectKey(uuid, now, file.originalName))
  }
}
