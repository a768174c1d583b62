/** `FileHandler` of utils/file_handler.py: the check of an uploaded file's
    extension and the choice of the reader that extracts its text.

    The readers themselves (`extract_text_from_pdf`, `extract_text_from_txt`)
    open files and call PyPDF2; they are the functions `readPdf` and
    `readTxt` from a path to the text they would return, `None` standing
    for the failure they report. */
module Files {
  import opened Wrappers
  import opened Text

  /** `ALLOWED_EXTENSIONS` of config/settings.py. */
  const AllowedExtensions: set<string> := {"txt", "pdf"}

  /** The position of the last `'.'` of `s`, where `s.rsplit('.', 1)` cuts. */
  function LastDot(s: string): (r: Option<nat>)
    ensures r.Some? ==> r.value < |s| && s[r.value] == '.'
    ensures r.Some? ==> forall j :: r.value < j < |s| ==> s[j] != '.'
    ensures r.None? ==> forall j :: 0 <= j < |s| ==> s[j] != '.'
    decreases |s|
  {
    if s == [] then None
    else if s[|s| - 1] == '.' then Some(|s| - 1)
    else
      var p := s[..|s| - 1];
      assert forall j :: 0 <= j < |p| ==> p[j] == s[j];
      LastDot(p)
  }

  /** A text with a dot contains a dot. */
  lemma {:induction false} DotIn(s: string)
    ensures '.' in s <==> LastDot(s).Some?
  {
    if '.' in s {
      var j :| 0 <= j < |s| && s[j] == '.';
    }
    if LastDot(s).Some? {
      assert s[LastDot(s).value] == '.';
    }
  }

  /** `filename.rsplit('.', 1)[1].lower()`: the text after the last dot,
      lowercased; `None` where Python raises `IndexError`, for a name
      without a dot. */
  function Extension(t: CharTables, name: string): (r: Option<string>)
    ensures r.None? <==> '.' !in name
    ensures r.Some? ==> |r.value| < |name|
  {
    DotIn(name);
    match LastDot(name)
    case None => None
    case Some(k) => Some(Lower(t, name[k + 1..]))
  }

  /** `allowed_file`: the name has a dot and its extension is allowed. */
  function AllowedFile(t: CharTables, name: string): bool {
    '.' in name && Extension(t, name).value in AllowedExtensions
  }

  /** A name made of anything, a dot, and a dot-free final part `e`: its
      last dot is the one in front of `e`. */
  lemma {:induction false} LastDotBeforeFinalPart(p: string, e: string)
    requires '.' !in e
    ensures LastDot(p + ['.'] + e) == Some(|p|)
    decreases |e|
  {
    var s := p + ['.'] + e;
    if e == [] {
      assert s[|s| - 1] == '.';
    } else {
      var last := |s| - 1;
      assert s[last] == e[|e| - 1];
      assert e[|e| - 1] in e;
      var e' := e[..|e| - 1];
      assert s[..last] == p + ['.'] + e';
      assert '.' !in e' by {
        forall j | 0 <= j < |e'| ensures e'[j] != '.' {
          assert e'[j] == e[j];
          assert e[j] in e;
        }
      }
      LastDotBeforeFinalPart(p, e');
    }
  }

  /** The extension is the lowercased text after the last dot, whatever
      comes before it. */
  lemma {:induction false} ExtensionIsFinalPart(t: CharTables, p: string, e: string)
    requires '.' !in e
    ensures Extension(t, p + ['.'] + e) == Some(Lower(t, e))
  {
    var s := p + ['.'] + e;
    LastDotBeforeFinalPart(p, e);
    assert s[|p| + 1..] == e;
  }

  /** Only the final extension decides: `allowed_file` accepts a name
      ending in a dot and a dot-free part exactly when that part, lowercased,
      is `txt` or `pdf`, whatever comes before. */
  lemma {:induction false} AllowedFileFinalExtension(t: CharTables, p: string, e: string)
    requires '.' !in e
    ensures AllowedFile(t, p + ['.'] + e) <==> Lower(t, e) == "txt" || Lower(t, e) == "pdf"
  {
    var s := p + ['.'] + e;
    ExtensionIsFinalPart(t, p, e);
    assert s[|p|] == '.';
  }

  /** A dot with no dot after it is the last dot. */
  lemma {:induction false} LastDotUnique(name: string, k: nat)
    requires k < |name| && name[k] == '.' && '.' !in name[k + 1..]
    ensures LastDot(name) == Some(k)
  {
    var u := name[k + 1..];
    assert name == name[..k] + ['.'] + u;
    LastDotBeforeFinalPart(name[..k], u);
  }

  /** An accepted name has its last dot in front of an allowed extension. */
  lemma {:induction false} AllowedFileHasFinalPart(t: CharTables, name: string)
    requires AllowedFile(t, name)
    ensures var k := LastDot(name).value;
      k < |name| && name[k] == '.' && '.' !in name[k + 1..]
        && Lower(t, name[k + 1..]) in AllowedExtensions
  {
    DotIn(name);
    var k := LastDot(name).value;
    var u := name[k + 1..];
    assert '.' !in u by {
      forall j | 0 <= j < |u| ensures u[j] != '.' {
        assert u[j] == name[k + 1 + j];
      }
    }
  }

  /** A dot followed by nothing but an allowed extension makes a name
      acceptable. */
  lemma {:induction false} FinalPartAllowsFile(t: CharTables, name: string, k: nat)
    requires k < |name| && name[k] == '.' && '.' !in name[k + 1..]
    requires Lower(t, name[k + 1..]) in AllowedExtensions
    ensures AllowedFile(t, name)
  {
    LastDotUnique(name, k);
    assert name[k] in name;
  }

  /** `allowed_file` accepts exactly the names with a dot after which
      nothing but the allowed extension, in any case, follows. */
  lemma {:induction false} AllowedFileIff(t: CharTables, name: string)
    ensures AllowedFile(t, name) <==>
      exists k :: 0 <= k < |name| && name[k] == '.' && '.' !in name[k + 1..]
        && Lower(t, name[k + 1..]) in AllowedExtensions
  {
    if AllowedFile(t, name) {
      AllowedFileHasFinalPart(t, name);
      var k := LastDot(name).value;
      assert 0 <= k < |name| && name[k] == '.' && '.' !in name[k + 1..]
        && Lower(t, name[k + 1..]) in AllowedExtensions;
    }
    if exists k :: 0 <= k < |name| && name[k] == '.' && '.' !in name[k + 1..]
        && Lower(t, name[k + 1..]) in AllowedExtensions {
      var k :| 0 <= k < |name| && name[k] == '.' && '.' !in name[k + 1..]
        && Lower(t, name[k + 1..]) in AllowedExtensions;
      FinalPartAllowsFile(t, name, k);
    }
  }

  /** Without a dot `allowed_file` answers false. */
  lemma {:induction false} AllowedFileNeedsDot(t: CharTables, name: string)
    requires '.' !in name
    ensures !AllowedFile(t, name)
  {
  }

  /** Lowering `PDF`, one character at a time. */
  lemma {:induction false} LowerPdf(t: CharTables)
    requires AsciiConforming(t)
    ensures Lower(t, "PDF") == "pdf"
  {
    var u := "PDF";
    assert u[0] == 'P' && u[1] == 'D' && u[2] == 'F';
    assert t.lower('P') == 'p' && t.lower('D') == 'd' && t.lower('F') == 'f';
    var l := Lower(t, u);
    assert l[0] == 'p' && l[1] == 'd' && l[2] == 'f';
    assert l == ['p', 'd', 'f'];
  }

  /** Lowering `exe` keeps its first character. */
  lemma {:induction false} LowerExe(t: CharTables)
    requires AsciiConforming(t)
    ensures |Lower(t, "exe")| == 3 && Lower(t, "exe")[0] == 'e'
  {
    var u := "exe";
    assert u[0] == 'e';
    assert t.lower('e') == 'e';
  }

  /** An upper-case final extension is accepted: `a.tar.PDF`. */
  lemma {:induction false} AcceptsTarPdf(t: CharTables)
    requires AsciiConforming(t)
    ensures AllowedFile(t, "a.tar.PDF")
  {
    var e := "PDF";
    assert e[0] != '.' && e[1] != '.' && e[2] != '.';
    assert '.' !in e;
    assert "a.tar.PDF" == "a.tar" + ['.'] + e;
    AllowedFileFinalExtension(t, "a.tar", e);
    LowerPdf(t);
  }

  /** An allowed extension that is not the final one does not count:
      `a.pdf.exe` is rejected. */
  lemma {:induction false} RejectsPdfExe(t: CharTables)
    requires AsciiConforming(t)
    ensures !AllowedFile(t, "a.pdf.exe")
  {
    var e := "exe";
    assert e[0] != '.' && e[1] != '.' && e[2] != '.';
    assert '.' !in e;
    assert "a.pdf.exe" == "a.pdf" + ['.'] + e;
    AllowedFileFinalExtension(t, "a.pdf", e);
    LowerExe(t);
    var l := Lower(t, e);
    assert "txt"[0] == 't' && "pdf"[0] == 'p';
    assert l != "txt" && l != "pdf";
  }

  /** The readers `extract_text_from_file` may hand the file to. */
  datatype Reader = PdfReader | TxtReader

  /** The exception `extract_text_from_file` lets escape: the `IndexError`
      of `rsplit('.', 1)[1]` on a name without a dot. */
  datatype FileFault = NoExtension

  /** The branch `extract_text_from_file` takes: a reader, `None` for the
      final `else`, or the `IndexError`. */
  function ChooseReader(t: CharTables, name: string): (r: Result<Option<Reader>, FileFault>)
    ensures r.Err? <==> '.' !in name
    ensures r == Ok(Some(PdfReader)) <==> Extension(t, name) == Some("pdf")
    ensures r == Ok(Some(TxtReader)) <==> Extension(t, name) == Some("txt")
  {
    match Extension(t, name)
    case None => Err(NoExtension)
    case Some(e) =>
      if e == "pdf" then Ok(Some(PdfReader))
      else if e == "txt" then Ok(Some(TxtReader))
      else Ok(None)
  }

  /** `extract_text_from_file`: the text the reader chosen by the extension
      returns, `None` for any other extension. */
  function ExtractTextFromFile(
    t: CharTables,
    readPdf: string -> Option<string>,
    readTxt: string -> Option<string>,
    path: string,
    name: string): (r: Result<Option<string>, FileFault>)
  {
    match ChooseReader(t, name)
    case Err(fault) => Err(fault)
    case Ok(None) => Ok(None)
    case Ok(Some(PdfReader)) => Ok(readPdf(path))
    case Ok(Some(TxtReader)) => Ok(readTxt(path))
  }

  /** The dispatch of `extract_text_from_file`: the PDF reader for `pdf`,
      the text reader for `txt`, nothing for any other extension, and the
      `IndexError` for a name without a dot. */
  lemma {:induction false} ExtractDispatch(
    t: CharTables,
    readPdf: string -> Option<string>,
    readTxt: string -> Option<string>,
    path: string,
    name: string)
    ensures var r := ExtractTextFromFile(t, readPdf, readTxt, path, name);
      && ('.' !in name ==> r == Err(NoExtension))
      && (Extension(t, name) == Some("pdf") ==> r == Ok(readPdf(path)))
      && (Extension(t, name) == Some("txt") ==> r == Ok(readTxt(path)))
      && (Extension(t, name).Some? && Extension(t, name).value !in AllowedExtensions ==> r == Ok(None))
  {
  }

  /** A name `allowed_file` accepts never reaches the final `else` of
      `extract_text_from_file`, nor its `IndexError`: one of the two readers
      is called. */
  lemma {:induction false} AllowedFileHasReader(t: CharTables, name: string)
    requires AllowedFile(t, name)
    ensures ChooseReader(t, name).Ok? && ChooseReader(t, name).value.Some?
  {
    var e := Extension(t, name).value;
    assert e == "txt" || e == "pdf";
  }
}
