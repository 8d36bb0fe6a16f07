/** How the collector names the content type of a local file: the extension
    `os.path.splitext` finds, lowered and looked up in a fixed table. */
module Paths {
  import opened StringOps
  import opened FileTypes

  /** The text from a dot with no later dot, after the last slash, is an
      extension-shaped suffix. */
  lemma ExtensionShape(path: string, sep: int, dot: int)
    requires -1 <= sep < dot < |path| && path[dot] == '.'
    requires '.' !in path[dot + 1..] && '/' !in path[sep + 1..]
    ensures var ext := path[dot..];
      IsSuffix(ext, path) && ext[0] == '.' && '.' !in ext[1..] && '/' !in ext
  {
    var ext := path[dot..];
    assert ext == path[sep + 1..][dot - sep - 1..];
    assert ext[1..] == path[dot + 1..];
  }

  /** `os.path.splitext(path)[1]` for POSIX paths: from the last dot of the
      final path component, unless only dots precede it in that component. */
  function Extension(path: string): (ext: string)
    ensures ext == [] || (IsSuffix(ext, path) && ext[0] == '.' && '.' !in ext[1..] && '/' !in ext)
  {
    var sep := LastIndexOf(path, '/');
    var dot := LastIndexOf(path, '.');
    if dot > sep && exists k | sep + 1 <= k < dot :: path[k] != '.' then
      assert '/' !in path[sep + 1..] by {
        if sep == -1 {
          assert path[sep + 1..] == path;
        }
      }
      ExtensionShape(path, sep, dot);
      path[dot..]
    else []
  }

  const OctetStream := App("octet-stream")

  /** The extension table of the local-file branch. */
  const ExtensionTypes: map<string, MediaType> := map[
    ".doc" := App("msword"),
    ".docx" := App(OpenXml + "wordprocessingml.document"),
    ".xls" := App("vnd.ms-excel"),
    ".xlsx" := App(OpenXml + "spreadsheetml.sheet"),
    ".ppt" := App("vnd.ms-powerpoint"),
    ".pptx" := App(OpenXml + "presentationml.presentation"),
    ".txt" := TextPlain
  ]

  /** `dict.get(ext, 'application/octet-stream')` on that table. No entry of
      the table is the default, so the default marks an unlisted extension. */
  function ExtensionContentType(ext: string): (m: MediaType)
    ensures m == OctetStream <==> ext !in ExtensionTypes
  {
    if ext in ExtensionTypes then ExtensionTypes[ext] else OctetStream
  }

  /** The content type the local-file branch hands to the converter. A path
      whose lowered extension is not in the table gets a type that the
      content-type stage does not claim and `check_content_type` rejects. */
  function LocalContentType(path: string): (ct: string)
    ensures Lower(Extension(path)) !in ExtensionTypes ==> ClaimedKind(ct) == None && !CheckContentType(ct)
  {
    OctetStreamUnclaimed();
    Render(ExtensionContentType(Lower(Extension(path))))
  }

  // ---- what `splitext` returns ------------------------------------------------------

  /** A file name with a stem that is not all dots gets the text from its last
      dot on as its extension. */
  lemma ExtensionOfFileName(dir: string, stem: string, ext: string)
    requires '/' !in stem && '/' !in ext
    requires |ext| >= 1 && ext[0] == '.' && '.' !in ext[1..]
    requires exists k | 0 <= k < |stem| :: stem[k] != '.'
    ensures Extension(dir + stem + ext) == ext
  {
    var path := dir + stem + ext;
    var dot := |dir| + |stem|;
    assert path[dot + 1..] == ext[1..];
    LastIndexOfAt(path, '.', dot);
    forall j | |dir| <= j < |path|
      ensures path[j] != '/'
    {
      if j < dot {
        assert path[j] == stem[j - |dir|] && stem[j - |dir|] in stem;
      } else {
        assert path[j] == ext[j - dot] && ext[j - dot] in ext;
      }
    }
    var sep := LastIndexOf(path, '/');
    assert sep < |dir|;
    var k :| 0 <= k < |stem| && stem[k] != '.';
    assert path[|dir| + k] == stem[k];
    assert path[dot..] == ext;
  }

  /** A name that starts with its only dot, like `.bashrc`, has no extension. */
  lemma DotFileHasNoExtension(dir: string, name: string)
    requires dir == [] || dir[|dir| - 1] == '/'
    requires '/' !in name && '.' !in name
    ensures Extension(dir + "." + name) == []
  {
    var path := dir + "." + name;
    assert path[|dir| + 1..] == name;
    LastIndexOfAt(path, '.', |dir|);
    if dir != [] {
      assert path[|dir|..] == "." + name;
      LastIndexOfAt(path, '/', |dir| - 1);
    } else {
      assert '/' !in path;
    }
  }

  // ---- what the table decides ----------------------------------------------------

  lemma TableEntries()
    ensures ExtensionContentType(".doc") == Registry(Word)[0]
    ensures ExtensionContentType(".docx") == Registry(Word)[1]
    ensures ExtensionContentType(".xls") == Registry(Excel)[0]
    ensures ExtensionContentType(".xlsx") == Registry(Excel)[1]
    ensures ExtensionContentType(".ppt") == Registry(PowerPoint)[0]
    ensures ExtensionContentType(".pptx") == Registry(PowerPoint)[1]
    ensures ExtensionContentType(".txt") == TextPlain
  {
  }

  /** Each entry of the table classifies as the kind it was written for, whatever
      the bytes of the file are. */
  lemma TableTypesClassify(content: Payload)
    ensures DetectFileType(content, Render(ExtensionContentType(".doc"))) == Detected(Word)
    ensures DetectFileType(content, Render(ExtensionContentType(".docx"))) == Detected(Word)
    ensures DetectFileType(content, Render(ExtensionContentType(".xls"))) == Detected(Excel)
    ensures DetectFileType(content, Render(ExtensionContentType(".xlsx"))) == Detected(Excel)
    ensures DetectFileType(content, Render(ExtensionContentType(".ppt"))) == Detected(PowerPoint)
    ensures DetectFileType(content, Render(ExtensionContentType(".pptx"))) == Detected(PowerPoint)
    ensures DetectFileType(content, Render(ExtensionContentType(".txt"))) == Detected(Text)
  {
    TableEntries();
    MsWordIsWord();
    DocxTypeIsWord();
    MsExcelIsExcel();
    XlsxTypeIsExcel();
    MsPowerPointIsPowerPoint();
    PptxTypeIsPowerPoint();
    TextPlainIsText();
  }

  /** Any other extension yields `application/octet-stream`, which claims no
      kind, so the magic-number stage decides alone. */
  lemma UnlistedExtensionUsesMagic(ext: string, content: Payload)
    requires ext !in ExtensionTypes
    ensures content.Chars? ==> DetectFileType(content, Render(ExtensionContentType(ext))) == MagicOnChars
    ensures content.Bytes? ==>
      DetectFileType(content, Render(ExtensionContentType(ext))) ==
        (if MagicKind(content.data).Some? then Detected(MagicKind(content.data).value) else Undetected)
  {
    OctetStreamUnclaimed();
    UnclaimedUsesMagic(content, Render(OctetStream));
  }

  lemma PdfUnlisted()
    ensures Lower(".pdf") == ".pdf" && ".pdf" !in ExtensionTypes
  {
    LowerKeepsLowercase(".pdf");
  }

  /** A local `.pdf` file is recognised by its `%PDF` header. */
  lemma PdfFileByMagic(dir: string, stem: string, data: seq<byte>)
    requires '/' !in stem && exists k | 0 <= k < |stem| :: stem[k] != '.'
    requires IsPrefix(PdfSignature, data)
    ensures DetectFileType(Bytes(data), LocalContentType(dir + stem + ".pdf")) == Detected(Pdf)
  {
    ExtensionOfFileName(dir, stem, ".pdf");
    PdfUnlisted();
    UnlistedExtensionUsesMagic(".pdf", Bytes(data));
    PdfSignatureIsPdf(data);
  }

  /** A local Office container whose extension is not in the table (a
      macro-enabled workbook, say) is taken for a Word document. */
  lemma UnlistedContainerIsWord(ext: string, data: seq<byte>)
    requires ext !in ExtensionTypes
    requires IsPrefix(Ole2, data) || IsPrefix(Zip, data)
    ensures DetectFileType(Bytes(data), Render(ExtensionContentType(ext))) == Detected(Word)
  {
    UnlistedExtensionUsesMagic(ext, Bytes(data));
    ContainerIsWord(data);
  }
}
