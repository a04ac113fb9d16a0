/** The upload middleware of the file-message route: an extension allow-list judged on Node's
    `path.extname` of the client's file name, the stored-file name, and the 10 MiB size cap. */
module Uploads {
  import opened Common

  const MaxFileSize := 10 * 1024 * 1024
  const AllowedExtensions: seq<string> := [".png", ".jpg", ".jpeg", ".gif", ".pdf", ".doc", ".docx"]
  const StoredPrefix := "chat-"

  /** `p` without the slashes at its end. */
  function StripTrailingSlashes(p: string): (r: string)
    ensures |r| <= |p| && r == p[..|r|]
    ensures r == [] || r[|r| - 1] != '/'
    ensures forall i :: |r| <= i < |p| ==> p[i] == '/'
  {
    if p != [] && p[|p| - 1] == '/' then StripTrailingSlashes(p[..|p| - 1]) else p
  }

  /** The position of the last `c` in `s`, if any. */
  function LastIndexOf(s: string, c: char): (r: Option<nat>)
    ensures r.Some? ==> r.value < |s| && s[r.value] == c && forall j :: r.value < j < |s| ==> s[j] != c
    ensures r.None? ==> forall j :: 0 <= j < |s| ==> s[j] != c
  {
    if s == [] then None
    else if s[|s| - 1] == c then Some(|s| - 1)
    else LastIndexOf(s[..|s| - 1], c)
  }

  /** The last path segment, trailing slashes ignored. */
  function BaseName(p: string): (b: string)
    ensures forall i :: 0 <= i < |b| ==> b[i] != '/'
  {
    var t := StripTrailingSlashes(p);
    match LastIndexOf(t, '/')
    case None => t
    case Some(k) => t[k + 1..]
  }

  /** The extension of a path segment without slashes: from its last dot to its end, or empty
      when it has no dot, when that dot is its first character, or when it is `..`. */
  function ExtOfBase(b: string): (ext: string)
    ensures ext == [] || (ext[0] == '.' && forall i :: 1 <= i < |ext| ==> ext[i] != '.')
    ensures |ext| <= |b| && ext == b[|b| - |ext|..]
  {
    match LastIndexOf(b, '.')
    case None => ""
    case Some(k) => if k == 0 || b == ".." then "" else b[k..]
  }

  /** Node's POSIX `path.extname`: the extension of the last path segment. */
  function ExtName(p: string): (ext: string)
    ensures ext == [] || (ext[0] == '.' && forall i :: 1 <= i < |ext| ==> ext[i] != '.' && ext[i] != '/')
    ensures |ext| <= |BaseName(p)| && ext == BaseName(p)[|BaseName(p)| - |ext|..]
  {
    var b := BaseName(p);
    var ext := ExtOfBase(b);
    assert forall i :: 1 <= i < |ext| ==> ext[i] == b[|b| - |ext| + i];
    ext
  }

  function LowerAscii(c: char): char {
    if 'A' <= c <= 'Z' then (c as int + 32) as char else c
  }

  /** `toLowerCase` on the ASCII letters; other code units are kept. */
  function ToLowerAscii(s: string): (r: string)
    ensures |r| == |s| && forall i :: 0 <= i < |s| ==> r[i] == LowerAscii(s[i])
  {
    seq(|s|, i requires 0 <= i < |s| => LowerAscii(s[i]))
  }

  /** multer's `fileFilter`: the lower-cased extension is on the allow-list. An accepted name
      therefore has a real extension: a dot and three or four more characters. */
  predicate FileFilter(originalName: string): (ok: bool)
    ensures ok ==> var e := ExtName(originalName); 4 <= |e| <= 5 && e[0] == '.'
  {
    var e := ExtName(originalName);
    var lowered := ToLowerAscii(e);
    assert lowered in AllowedExtensions ==> |e| == |lowered| && 4 <= |lowered| <= 5 && lowered[0] == '.';
    lowered in AllowedExtensions
  }

  /** The stored file name `chat-<time>-<random><ext>`; `stamp` and `nonce` are the decimal
      renderings of `Date.now()` and of the rounded random number. It starts with `chat-` and
      ends with the original name's extension. */
  function StoredName(stamp: string, nonce: string, originalName: string): (r: string)
    ensures |r| == |StoredPrefix| + |stamp| + 1 + |nonce| + |ExtName(originalName)|
    ensures r[..|StoredPrefix|] == StoredPrefix
    ensures r[|r| - |ExtName(originalName)|..] == ExtName(originalName)
  {
    StoredPrefix + stamp + "-" + nonce + ExtName(originalName)
  }

  predicate Digits(s: string) {
    forall i :: 0 <= i < |s| ==> '0' <= s[i] <= '9'
  }

  predicate NoDotOrSlash(s: string) {
    forall i :: 0 <= i < |s| ==> s[i] != '.' && s[i] != '/'
  }

  /** Where the last segment of `s` starts: just after its last slash. */
  function SegmentStart(s: string): (k: nat)
    ensures k <= |s|
    ensures forall i :: k <= i < |s| ==> s[i] != '/'
    ensures k > 0 ==> s[k - 1] == '/'
  {
    match LastIndexOf(s, '/')
    case None => 0
    case Some(k) => k + 1
  }

  /** Characters appended after the last `c` do not move it, so long as they are not `c`. */
  lemma {:induction false} LastIndexOfPrefix(a: string, b: string, c: char)
    requires forall i :: 0 <= i < |b| ==> b[i] != c
    ensures LastIndexOf(a + b, c) == LastIndexOf(a, c)
    decreases |b|
  {
    if b != [] {
      var ab := a + b;
      assert ab[|ab| - 1] == b[|b| - 1];
      assert ab[..|ab| - 1] == a + b[..|b| - 1];
      LastIndexOfPrefix(a, b[..|b| - 1], c);
    } else {
      assert a + b == a;
    }
  }

  /** The last `c` is at `k` when `s[k]` is `c` and none follows it. */
  lemma LastIndexOfIs(s: string, c: char, k: nat)
    requires k < |s| && s[k] == c
    requires forall j :: k < j < |s| ==> s[j] != c
    ensures LastIndexOf(s, c) == Some(k)
  {
  }

  /** Removing trailing slashes leaves a path that does not end in a slash unchanged. */
  lemma StripNothing(p: string)
    requires p != [] && p[|p| - 1] != '/'
    ensures StripTrailingSlashes(p) == p
  {
  }

  /** Appending a run without slashes to a path extends its last segment. */
  lemma BaseOfAppended(stem: string, tail: string)
    requires tail != [] && forall i :: 0 <= i < |tail| ==> tail[i] != '/'
    ensures BaseName(stem + tail) == stem[SegmentStart(stem)..] + tail
  {
    var p := stem + tail;
    assert p[|p| - 1] == tail[|tail| - 1];
    StripNothing(p);
    LastIndexOfPrefix(stem, tail, '/');
    var k := SegmentStart(stem);
    assert BaseName(p) == p[k..];
    assert p[k..] == stem[k..] + tail;
  }

  /** In a segment `seg.ext` the dot before `ext` is the last one; it starts the extension
      unless the segment is empty before it. */
  lemma ExtOfDottedSegment(seg: string, ext: string)
    requires ext != [] && NoDotOrSlash(ext)
    ensures ExtOfBase(seg + "." + ext) == if seg != [] then "." + ext else ""
  {
    var tail := "." + ext;
    var b := seg + tail;
    assert seg + "." + ext == b;
    LastIndexOfIs(b, '.', |seg|);
    assert b != ".." by { assert b[|b| - 1] == ext[|ext| - 1]; }
    assert b[|seg|..] == tail;
  }

  /** When the last dot is followed by a non-empty run without dots or slashes, that run decides
      the extension: it is the extension exactly when something other than a slash precedes the dot. */
  lemma LastExtensionDecides(stem: string, ext: string)
    requires ext != [] && NoDotOrSlash(ext)
    ensures ExtName(stem + "." + ext) == if stem != [] && stem[|stem| - 1] != '/' then "." + ext else ""
  {
    var tail := "." + ext;
    assert stem + "." + ext == stem + tail;
    BaseOfAppended(stem, tail);
    var k := SegmentStart(stem);
    assert stem[k..] + tail == stem[k..] + "." + ext;
    ExtOfDottedSegment(stem[k..], ext);
  }

  /** A name without a dot has no extension. */
  lemma NoDotNoExtension(name: string)
    requires forall i :: 0 <= i < |name| ==> name[i] != '.'
    ensures ExtName(name) == ""
  {
    var b := BaseName(name);
    var t := StripTrailingSlashes(name);
    match LastIndexOf(t, '/')
    case None =>
    case Some(k) => assert b == t[k + 1..];
  }

  lemma DigitsPlain(s: string)
    requires Digits(s)
    ensures NoDotOrSlash(s)
  {
  }

  lemma PlainJoin(a: string, b: string)
    requires NoDotOrSlash(a) && NoDotOrSlash(b)
    ensures NoDotOrSlash(a + b)
  {
    forall i | 0 <= i < |a + b| ensures (a + b)[i] != '.' && (a + b)[i] != '/' {
      if i < |a| { assert (a + b)[i] == a[i]; } else { assert (a + b)[i] == b[i - |a|]; }
    }
  }

  /** The part of a stored name before the extension has no dot and no slash. */
  lemma StoredStemPlain(stamp: string, nonce: string)
    requires Digits(stamp) && Digits(nonce)
    ensures var stem := StoredPrefix + stamp + "-" + nonce;
      stem != [] && NoDotOrSlash(stem)
  {
    assert NoDotOrSlash(StoredPrefix) by {
      assert StoredPrefix == ['c', 'h', 'a', 't', '-'];
    }
    assert NoDotOrSlash("-") by {
      assert "-" == ['-'];
    }
    DigitsPlain(stamp);
    DigitsPlain(nonce);
    PlainJoin(StoredPrefix, stamp);
    PlainJoin(StoredPrefix + stamp, "-");
    PlainJoin(StoredPrefix + stamp + "-", nonce);
    assert |StoredPrefix + stamp + "-" + nonce| >= |StoredPrefix| == 5;
  }

  /** A stem without dots or slashes followed by an extension has that extension. */
  lemma PlainStemThenExtension(stem: string, e: string)
    requires stem != [] && NoDotOrSlash(stem)
    requires e == [] || (e[0] == '.' && forall i :: 1 <= i < |e| ==> e[i] != '.' && e[i] != '/')
    ensures ExtName(stem + e) == e
  {
    if e == [] {
      assert stem + e == stem;
      NoDotNoExtension(stem);
    } else {
      var x := e[1..];
      assert e == "." + x;
      assert stem + e == stem + "." + x;
      PlainStemExtension(stem, x);
    }
  }

  /** The stored name keeps the original extension, case included. */
  lemma StoredNameKeepsExtension(stamp: string, nonce: string, originalName: string)
    requires Digits(stamp) && Digits(nonce)
    ensures ExtName(StoredName(stamp, nonce, originalName)) == ExtName(originalName)
  {
    StoredStemPlain(stamp, nonce);
    PlainStemThenExtension(StoredPrefix + stamp + "-" + nonce, ExtName(originalName));
  }

  /** A dot after a non-empty stem without dots or slashes always starts the extension. */
  lemma PlainStemExtension(stem: string, ext: string)
    requires stem != []
    requires forall i :: 0 <= i < |stem| ==> stem[i] != '.' && stem[i] != '/'
    requires forall i :: 0 <= i < |ext| ==> ext[i] != '.' && ext[i] != '/'
    ensures ExtName(stem + "." + ext) == "." + ext
  {
    var p := stem + "." + ext;
    assert p[|p| - 1] != '/';
    assert StripTrailingSlashes(p) == p;
    assert LastIndexOf(p, '/') == None;
    assert BaseName(p) == p;
    assert p[|stem|] == '.';
    assert LastIndexOf(p, '.') == Some(|stem|);
    assert p != ".." by { assert p[0] == stem[0]; }
    assert p[|stem|..] == "." + ext;
  }

  /** When the last dot is followed by a non-empty run without dots or slashes, the file is
      accepted exactly when a non-empty last segment precedes that dot and the lower-cased
      `.run` is on the allow-list. */
  lemma FilterByLastExtension(stem: string, ext: string)
    requires ext != [] && NoDotOrSlash(ext)
    ensures FileFilter(stem + "." + ext) <==>
      stem != [] && stem[|stem| - 1] != '/' && ToLowerAscii("." + ext) in AllowedExtensions
  {
    LastExtensionDecides(stem, ext);
    assert ToLowerAscii("") == "";
  }

  /** The same, for a dotted extension `dext` such as `.PNG`. */
  lemma FilterByDottedExtension(stem: string, dext: string)
    requires |dext| > 1 && dext[0] == '.'
    requires forall i :: 1 <= i < |dext| ==> dext[i] != '.' && dext[i] != '/'
    ensures FileFilter(stem + dext) <==>
      stem != [] && stem[|stem| - 1] != '/' && ToLowerAscii(dext) in AllowedExtensions
  {
    var ext := dext[1..];
    assert NoDotOrSlash(ext) by {
      forall i | 0 <= i < |ext| ensures ext[i] != '.' && ext[i] != '/' {
        assert ext[i] == dext[i + 1];
      }
    }
    assert "." + ext == dext;
    assert stem + "." + ext == stem + dext;
    FilterByLastExtension(stem, ext);
  }

  lemma PngLowered()
    ensures ToLowerAscii(".PNG") == ".png"
  {
    var r := ToLowerAscii(".PNG");
    assert r[0] == '.' && r[1] == 'p' && r[2] == 'n' && r[3] == 'g';
  }

  lemma PdfLowered()
    ensures ToLowerAscii(".pdf") == ".pdf"
  {
    var r := ToLowerAscii(".pdf");
    assert r[0] == '.' && r[1] == 'p' && r[2] == 'd' && r[3] == 'f';
  }

  lemma ExeNotAllowed()
    ensures ToLowerAscii(".exe") !in AllowedExtensions
  {
    var r := ToLowerAscii(".exe");
    assert r[1] == 'e';
    forall i | 0 <= i < |AllowedExtensions| ensures AllowedExtensions[i] != r {
      assert AllowedExtensions[i][1] != 'e';
    }
  }

  /** Matching ignores case: any name ending in `.PNG` after a non-empty segment, such as
      `a.PNG`, is accepted. */
  lemma UpperCaseAccepted(stem: string)
    requires stem != [] && stem[|stem| - 1] != '/'
    ensures FileFilter(stem + ".PNG")
  {
    FilterByDottedExtension(stem, ".PNG");
    PngLowered();
  }

  /** Only the last extension counts: a name ending in `.pdf` is accepted whatever precedes it,
      so `x.exe.pdf` passes. */
  lemma InnerExtensionIgnored(stem: string)
    requires stem != [] && stem[|stem| - 1] != '/'
    ensures FileFilter(stem + ".pdf")
  {
    FilterByDottedExtension(stem, ".pdf");
    PdfLowered();
  }

  /** Only the last extension counts: a name ending in `.exe` is refused whatever precedes it,
      so `x.pdf.exe` fails. */
  lemma LastExtensionRefused(stem: string)
    ensures !FileFilter(stem + ".exe")
  {
    FilterByDottedExtension(stem, ".exe");
    ExeNotAllowed();
  }

  /** A dot-file has no extension and is refused, whatever follows its dot. */
  lemma DotFileRefused(ext: string)
    requires ext != [] && NoDotOrSlash(ext)
    ensures !FileFilter("." + ext)
  {
    LastExtensionDecides("", ext);
    assert "" + "." + ext == "." + ext;
  }

  /** A name without a dot is refused. */
  lemma NoDotRefused(name: string)
    requires forall i :: 0 <= i < |name| ==> name[i] != '.'
    ensures !FileFilter(name)
  {
    NoDotNoExtension(name);
  }

  /** A part of a multipart request: the client's file name, its MIME type and its size in bytes. */
  datatype FilePart = FilePart(originalName: string, mimeType: string, size: nat)

  /** What multer puts in `req.file`. */
  datatype UploadedFile = UploadedFile(filename: string, mimeType: string, originalName: string)

  /** The outcome of `chatUpload.single('file')`: no file (none sent, or dropped by the filter),
      a stored file, or multer's "File too large" error. */
  datatype Upload = NoFile | Stored(file: UploadedFile) | TooLarge

  /** The filter runs first and drops a refused file silently; an accepted file over the cap
      makes multer fail. */
  function SingleUpload(part: Option<FilePart>, stamp: string, nonce: string): (u: Upload)
    ensures u.Stored? <==> part.Some? && FileFilter(part.value.originalName) && part.value.size <= MaxFileSize
    ensures u.TooLarge? <==> part.Some? && FileFilter(part.value.originalName) && part.value.size > MaxFileSize
    ensures u.Stored? ==>
              && u.file.mimeType == part.value.mimeType
              && u.file.originalName == part.value.originalName
              && u.file.filename == StoredName(stamp, nonce, part.value.originalName)
  {
    match part
    case None => NoFile
    case Some(f) =>
      if !FileFilter(f.originalName) then NoFile
      else if f.size > MaxFileSize then TooLarge
      else Stored(UploadedFile(StoredName(stamp, nonce, f.originalName), f.mimeType, f.originalName))
  }
}
