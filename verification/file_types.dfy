/** The file-type registry of the collector and the three classifiers built on
    it: the content-type/magic-number detector, the content-type support check
    and the container-based extension detector. */
module FileTypes {
  import opened StringOps

  newtype byte = x: int | 0 <= x < 256

  /** The six registry entries, named after their keys. */
  datatype FileKind = Html | Text | Pdf | Word | Excel | PowerPoint

  /** The registry is a dictionary, so every search visits the kinds in
      insertion order. */
  const Kinds: seq<FileKind> := [Html, Text, Pdf, Word, Excel, PowerPoint]

  /** The position of a kind in the search order. */
  function Rank(k: FileKind): (r: nat)
    ensures r < |Kinds| && Kinds[r] == k
    ensures forall i | 0 <= i < |Kinds| && Kinds[i] == k :: i == r
  {
    match k
    case Html => 0
    case Text => 1
    case Pdf => 2
    case Word => 3
    case Excel => 4
    case PowerPoint => 5
  }

  // ---- the registry ----------------------------------------------------------

  /** A media type `top/subtype`, as the registry spells it. */
  datatype MediaType = MediaType(top: string, subtype: string)

  function Render(m: MediaType): string {
    m.top + "/" + m.subtype
  }

  function App(subtype: string): MediaType {
    MediaType("application", subtype)
  }

  /** The vendor tree shared by the three Office Open XML types. */
  const OpenXml := "vnd.openxmlformats-officedocument."

  /** The `content_types` list of each registry entry, in its listed order. */
  function Registry(k: FileKind): (ms: seq<MediaType>)
    ensures |ms| >= 2
    ensures forall j | 0 <= j < |ms| :: ms[j].top == "text" || ms[j].top == "application"
    ensures k == Text ==> ms[0] == TextPlain
  {
    match k
    case Html => [MediaType("text", "html"), App("xhtml+xml")]
    case Text => [MediaType("text", "plain"), MediaType("text", "txt")]
    case Pdf => [App("pdf"), App("x-pdf"), App("acrobat"), App("vnd.pdf")]
    case Word =>
      [App("msword"), App(OpenXml + "wordprocessingml.document"), App("vnd.ms-word"),
       App("vnd.ms-word.document.macroEnabled.12")]
    case Excel =>
      [App("vnd.ms-excel"), App(OpenXml + "spreadsheetml.sheet"),
       App("vnd.ms-excel.sheet.macroEnabled.12")]
    case PowerPoint =>
      [App("vnd.ms-powerpoint"), App(OpenXml + "presentationml.presentation"),
       App("vnd.ms-powerpoint" + ".presentation.macroEnabled.12")]
  }

  /** The `extensions` list of each registry entry. */
  function Extensions(k: FileKind): (exts: seq<string>)
    ensures |exts| >= 1
    ensures forall i | 0 <= i < |exts| :: |exts[i]| >= 2 && exts[i][0] == '.'
    ensures IsOffice(k) ==> |exts| == 2
  {
    match k
    case Html => [".html", ".htm", ".xhtml"]
    case Text => [".txt"]
    case Pdf => [".pdf"]
    case Word => [".doc", ".docx"]
    case Excel => [".xls", ".xlsx"]
    case PowerPoint => [".ppt", ".pptx"]
  }

  /** The byte string of an ASCII literal. */
  function Ascii(s: string): (b: seq<byte>)
    requires forall i | 0 <= i < |s| :: s[i] as int < 256
    ensures |b| == |s| && forall i | 0 <= i < |s| :: b[i] as int == s[i] as int
  {
    seq(|s|, i requires 0 <= i < |s| => s[i] as byte)
  }

  const DoctypeHtml: seq<byte> := Ascii("<!DOCTYPE html>")
  const HtmlTag: seq<byte> := Ascii("<html")
  const XmlDeclaration: seq<byte> := Ascii("<?xml")
  const PdfSignature: seq<byte> := [0x25, 0x50, 0x44, 0x46]
  /** The OLE2 compound-file header of the legacy Office formats. */
  const Ole2: seq<byte> := [0xD0, 0xCF, 0x11, 0xE0]
  /** The ZIP local-file header of the Office Open XML formats. */
  const Zip: seq<byte> := [0x50, 0x4B, 0x03, 0x04]

  /** The `magic_numbers` list of each registry entry. */
  function MagicNumbers(k: FileKind): (ms: seq<seq<byte>>)
    ensures forall j | 0 <= j < |ms| :: 0 < |ms[j]| <= 32
    ensures ms == [] <==> k == Text
  {
    match k
    case Html => [DoctypeHtml, HtmlTag, XmlDeclaration]
    case Text => []
    case Pdf => [PdfSignature]
    case Word => [Ole2, Zip]
    case Excel => [Ole2, Zip]
    case PowerPoint => [Ole2, Zip]
  }

  // ---- the searches ------------------------------------------------------------

  /** Some registry string of `k` occurs in the (already lowered) content type. */
  predicate ClaimsKind(k: FileKind, lowered: string) {
    exists j | 0 <= j < |Registry(k)| :: Contains(lowered, Render(Registry(k)[j]))
  }

  /** Some magic number of `k` starts the inspected head of the content. */
  predicate HasMagic(k: FileKind, head: seq<byte>) {
    exists j | 0 <= j < |MagicNumbers(k)| :: IsPrefix(MagicNumbers(k)[j], head)
  }

  /** The first kind, from position `from` of the search order on, that passes
      `test`: the early-return loop over the registry. */
  function FirstKind(test: FileKind -> bool, from: nat): (r: Option<FileKind>)
    requires from <= |Kinds|
    ensures r.Some? ==> from <= Rank(r.value) && test(r.value)
    ensures r.Some? ==> forall j | from <= j < Rank(r.value) :: !test(Kinds[j])
    ensures r.None? ==> forall j | from <= j < |Kinds| :: !test(Kinds[j])
    decreases |Kinds| - from
  {
    if from == |Kinds| then None
    else if test(Kinds[from]) then Some(Kinds[from])
    else FirstKind(test, from + 1)
  }

  /** The kind the content-type stage picks: the first kind one of whose
      registry strings occurs in the lowered content type. */
  function ClaimedKind(contentType: string): (r: Option<FileKind>)
    ensures r.Some? ==> ClaimsKind(r.value, Lower(contentType))
    ensures r.None? ==> forall j | 0 <= j < |Kinds| :: !ClaimsKind(Kinds[j], Lower(contentType))
  {
    var lowered := Lower(contentType);
    FirstKind(k => ClaimsKind(k, lowered), 0)
  }

  /** `content[:32]`. */
  function Head(content: seq<byte>): (h: seq<byte>)
    ensures IsPrefix(h, content) && |h| == if |content| < 32 then |content| else 32
  {
    if |content| <= 32 then content else content[..32]
  }

  /** The kind the magic-number stage picks. */
  function MagicKind(content: seq<byte>): (r: Option<FileKind>)
    ensures r.Some? ==> HasMagic(r.value, Head(content))
    ensures r.None? ==> forall j | 0 <= j < |Kinds| :: !HasMagic(Kinds[j], Head(content))
  {
    var head := Head(content);
    FirstKind(k => HasMagic(k, head), 0)
  }

  /** What reaches the detector: bytes read from a file or an HTTP body, or the
      text of an element picked out of a page. */
  datatype Payload = Bytes(data: seq<byte>) | Chars(chars: string)

  /** The detector's verdict. `MagicOnChars` is the `TypeError` raised when the
      magic-number stage calls `startswith` with a byte string on text. */
  datatype Detection = Detected(kind: FileKind) | Undetected | MagicOnChars

  const TextPlain := MediaType("text", "plain")

  /** `detect_file_type`: the content-type stage, then the `text/plain`
      fallback, then the magic-number stage. The content type is `''` when the
      caller has none. */
  function DetectFileType(content: Payload, contentType: string): (d: Detection)
    ensures d.Detected? ==>
      || (contentType != "" && ClaimsKind(d.kind, Lower(contentType)))
      || (content.Bytes? && HasMagic(d.kind, Head(content.data)))
    ensures d == MagicOnChars ==> content.Chars?
    ensures d == Undetected ==>
      && content.Bytes?
      && (contentType == "" || forall j | 0 <= j < |Kinds| :: !ClaimsKind(Kinds[j], Lower(contentType)))
      && (forall j | 0 <= j < |Kinds| :: !HasMagic(Kinds[j], Head(content.data)))
  {
    if contentType != "" && ClaimedKind(contentType).Some? then
      Detected(ClaimedKind(contentType).value)
    else if contentType != "" && Contains(Lower(contentType), Render(TextPlain)) then
      assert Registry(Text)[0] == TextPlain;
      Detected(Text)
    else
      match content
      case Chars(_) => MagicOnChars
      case Bytes(data) =>
        if MagicKind(data).Some? then Detected(MagicKind(data).value) else Undetected
  }

  /** `check_content_type`: the same registry search over every kind. It
      accepts a content type exactly when it is non-empty and some kind has a
      registry string inside its lowered form. */
  function CheckContentType(contentType: string): (ok: bool)
    ensures ok <==> contentType != "" && exists k: FileKind :: ClaimsKind(k, Lower(contentType))
  {
    SearchCoversKinds(Lower(contentType));
    contentType != "" && exists i | 0 <= i < |Kinds| :: ClaimsKind(Kinds[i], Lower(contentType))
  }

  /** A search over the positions of `Kinds` is a search over every kind. */
  lemma SearchCoversKinds(lowered: string)
    ensures (exists i | 0 <= i < |Kinds| :: ClaimsKind(Kinds[i], lowered)) <==>
            exists k: FileKind :: ClaimsKind(k, lowered)
  {
    if exists i | 0 <= i < |Kinds| :: ClaimsKind(Kinds[i], lowered) {
      var i :| 0 <= i < |Kinds| && ClaimsKind(Kinds[i], lowered);
      assert ClaimsKind(Kinds[i], lowered);
    }
    if exists k: FileKind :: ClaimsKind(k, lowered) {
      var k: FileKind :| ClaimsKind(k, lowered);
      assert ClaimsKind(Kinds[Rank(k)], lowered);
    }
  }

  /** The kinds stored in an OLE2 or ZIP container. */
  predicate IsOffice(k: FileKind) {
    k == Word || k == Excel || k == PowerPoint
  }

  /** The marker `detect_file_extension` looks for to name an Office kind's
      format: the Open XML part name in a ZIP container, the legacy subtype in
      an OLE2 one. */
  function Marker(k: FileKind, zip: bool): (m: string)
    requires IsOffice(k)
    ensures |m| > 0 && '/' !in m && 'm' in m
  {
    if k == Word then (if zip then "wordprocessingml" else "msword")
    else if k == Excel then (if zip then "spreadsheetml" else "ms-excel")
    else if zip then "presentationml" else "ms-powerpoint"
  }

  /** The first Office kind, in table order, whose marker for the container
      family occurs in the content type as it is, without lowering. */
  function MarkedKind(contentType: string, zip: bool): (r: Option<FileKind>)
    ensures r.Some? ==> IsOffice(r.value) && Contains(contentType, Marker(r.value, zip))
  {
    FirstKind(k => IsOffice(k) && Contains(contentType, Marker(k, zip)), 0)
  }

  /** `detect_file_extension`: the container header picks the family and a
      case-sensitive marker in the content type picks the format. */
  function DetectFileExtension(content: seq<byte>, contentType: string): (r: Option<string>)
    ensures r.Some? ==> IsPrefix(Zip, content) || IsPrefix(Ole2, content)
    ensures r.Some? ==>
      exists k | IsOffice(k) :: r.value == Extensions(k)[if IsPrefix(Zip, content) then 1 else 0]
    ensures contentType == "" ==> r == None
  {
    if IsPrefix(Zip, content) then
      if contentType == "" then None
      else if Contains(contentType, "wordprocessingml") then Some(Extensions(Word)[1])
      else if Contains(contentType, "spreadsheetml") then Some(Extensions(Excel)[1])
      else if Contains(contentType, "presentationml") then Some(Extensions(PowerPoint)[1])
      else None
    else if IsPrefix(Ole2, content) then
      if contentType == "" then None
      else if Contains(contentType, "msword") then Some(Extensions(Word)[0])
      else if Contains(contentType, "ms-excel") then Some(Extensions(Excel)[0])
      else if Contains(contentType, "ms-powerpoint") then Some(Extensions(PowerPoint)[0])
      else None
    else None
  }

  /** `save_temp_file`'s name: the timestamp and the kind's first extension. */
  function TempFileName(stamp: string, k: FileKind): (name: string)
    ensures IsPrefix("temp_", name) && IsSuffix(Extensions(k)[0], name)
  {
    "temp_" + stamp + Extensions(k)[0]
  }

  // ---- the searches are first-match searches --------------------------------

  lemma FirstPassIsFirstKind(test: FileKind -> bool, k: FileKind)
    ensures FirstKind(test, 0) == Some(k) <==>
      test(k) && forall k': FileKind | Rank(k') < Rank(k) :: !test(k')
  {
    var r := FirstKind(test, 0);
    assert Kinds[Rank(k)] == k;
    forall k': FileKind | r == Some(k) && Rank(k') < Rank(k)
      ensures !test(k')
    {
      assert Kinds[Rank(k')] == k';
    }
    if test(k) && forall k': FileKind | Rank(k') < Rank(k) :: !test(k') {
      assert r.Some?;
      assert Kinds[Rank(r.value)] == r.value;
      assert Rank(r.value) == Rank(k);
    }
  }

  lemma NoPassIsNoKind(test: FileKind -> bool)
    ensures FirstKind(test, 0) == None <==> forall k: FileKind :: !test(k)
  {
    forall k: FileKind | FirstKind(test, 0) == None
      ensures !test(k)
    {
      assert Kinds[Rank(k)] == k;
    }
  }

  /** The content-type stage returns the first kind in table order that has a
      registry string inside the lowered content type. */
  lemma ClaimedKindIsFirstClaim(contentType: string, k: FileKind)
    ensures ClaimedKind(contentType) == Some(k) <==>
      ClaimsKind(k, Lower(contentType)) &&
      forall k': FileKind | Rank(k') < Rank(k) :: !ClaimsKind(k', Lower(contentType))
  {
    var lowered := Lower(contentType);
    FirstPassIsFirstKind(k => ClaimsKind(k, lowered), k);
  }

  lemma ClaimedKindNone(contentType: string)
    ensures ClaimedKind(contentType) == None <==>
      forall k: FileKind :: !ClaimsKind(k, Lower(contentType))
  {
    var lowered := Lower(contentType);
    NoPassIsNoKind(k => ClaimsKind(k, lowered));
  }

  /** The magic-number stage returns the first kind in table order with a magic
      number that starts the first 32 bytes. */
  lemma MagicKindIsFirstMatch(content: seq<byte>, k: FileKind)
    ensures MagicKind(content) == Some(k) <==>
      HasMagic(k, Head(content)) &&
      forall k': FileKind | Rank(k') < Rank(k) :: !HasMagic(k', Head(content))
  {
    var head := Head(content);
    FirstPassIsFirstKind(k => HasMagic(k, head), k);
  }

  /** `check_content_type` accepts exactly the non-empty content types for which
      the content-type stage of the detector returns a kind. */
  lemma CheckAgreesWithDetector(contentType: string)
    ensures CheckContentType(contentType) <==> contentType != "" && ClaimedKind(contentType).Some?
  {
    var lowered := Lower(contentType);
    ClaimedKindNone(contentType);
    if ClaimedKind(contentType).Some? {
      var k := ClaimedKind(contentType).value;
      ClaimedKindIsFirstClaim(contentType, k);
      assert Kinds[Rank(k)] == k;
    }
    forall i | 0 <= i < |Kinds| && ClaimsKind(Kinds[i], lowered)
      ensures ClaimedKind(contentType).Some?
    {
    }
  }

  /** Any content type containing `text/plain` is already claimed by the first
      stage, so the fallback that returns `text` for it never decides. */
  lemma TextPlainFallbackUnreachable(contentType: string)
    requires Contains(Lower(contentType), Render(TextPlain))
    ensures ClaimedKind(contentType).Some?
  {
    assert ClaimsKind(Text, Lower(contentType)) by {
      assert Registry(Text)[0] == TextPlain;
    }
    ClaimedKindNone(contentType);
  }

  /** A claimed kind decides the detection whatever the content is. */
  lemma ClaimBeatsContent(content: Payload, contentType: string, k: FileKind)
    requires contentType != "" && ClaimedKind(contentType) == Some(k)
    ensures forall other: Payload :: DetectFileType(other, contentType) == Detected(k)
  {
  }

  /** Without a claim the detection falls to the magic-number stage, which fails
      on text and otherwise reports the first matching kind or nothing. */
  lemma UnclaimedUsesMagic(content: Payload, contentType: string)
    requires contentType == "" || ClaimedKind(contentType).None?
    ensures content.Chars? ==> DetectFileType(content, contentType) == MagicOnChars
    ensures content.Bytes? ==>
      DetectFileType(content, contentType) ==
        (if MagicKind(content.data).Some? then Detected(MagicKind(content.data).value) else Undetected)
  {
    if contentType != "" && Contains(Lower(contentType), Render(TextPlain)) {
      TextPlainFallbackUnreachable(contentType);
    }
  }

  // ---- what the magic numbers decide -------------------------------------------

  lemma HeadKeepsMagic(m: seq<byte>, content: seq<byte>)
    requires |m| <= 32 && IsPrefix(m, content)
    ensures IsPrefix(m, Head(content))
  {
  }

  lemma HtmlMagicStartsWithAngle()
    ensures forall j | 0 <= j < |MagicNumbers(Html)| ::
      |MagicNumbers(Html)[j]| > 0 && MagicNumbers(Html)[j][0] == 0x3C
  {
  }

  /** Bytes starting with `%PDF` are detected as PDF when no content type claims them. */
  lemma PdfSignatureIsPdf(content: seq<byte>)
    requires IsPrefix(PdfSignature, content)
    ensures MagicKind(content) == Some(Pdf)
  {
    var head := Head(content);
    HeadKeepsMagic(PdfSignature, content);
    HtmlMagicStartsWithAngle();
    forall j | 0 <= j < |MagicNumbers(Html)|
      ensures !IsPrefix(MagicNumbers(Html)[j], head)
    {
      NotPrefixAt(MagicNumbers(Html)[j], head, 0);
    }
    assert IsPrefix(MagicNumbers(Pdf)[0], head);
    MagicKindIsFirstMatch(content, Pdf);
  }

  /** Both container headers are listed first under `word`, so OLE2 and ZIP
      content is detected as a Word document. */
  lemma ContainerIsWord(content: seq<byte>)
    requires IsPrefix(Ole2, content) || IsPrefix(Zip, content)
    ensures MagicKind(content) == Some(Word)
  {
    var head := Head(content);
    var m := if IsPrefix(Ole2, content) then Ole2 else Zip;
    HeadKeepsMagic(m, content);
    assert head[0] == m[0];
    HtmlMagicStartsWithAngle();
    forall j | 0 <= j < |MagicNumbers(Html)|
      ensures !IsPrefix(MagicNumbers(Html)[j], head)
    {
      NotPrefixAt(MagicNumbers(Html)[j], head, 0);
    }
    NotPrefixAt(PdfSignature, head, 0);
    assert !HasMagic(Pdf, head);
    assert m == MagicNumbers(Word)[0] || m == MagicNumbers(Word)[1];
    assert HasMagic(Word, head);
    MagicKindIsFirstMatch(content, Word);
  }

  /** The magic-number stage never reports `excel` or `powerpoint`: their magic
      numbers are exactly those of `word`, which is searched first. */
  lemma MagicNeverExcelOrPowerPoint(content: seq<byte>)
    ensures MagicKind(content) != Some(Excel) && MagicKind(content) != Some(PowerPoint)
  {
    MagicKindIsFirstMatch(content, Excel);
    MagicKindIsFirstMatch(content, PowerPoint);
    assert MagicNumbers(Excel) == MagicNumbers(Word) == MagicNumbers(PowerPoint);
    assert Rank(Word) < Rank(Excel) < Rank(PowerPoint);
  }

  // ---- what the content-type stage decides on fixed media types ----------------

  predicate SlashFree(m: MediaType) {
    '/' !in m.top && '/' !in m.subtype
  }

  /** Inside `t1/s1` with a single slash, `t2/s2` can only sit across that
      slash: its top is a suffix of `t1` and its subtype a prefix of `s1`. */
  lemma {:induction false} MediaContains(hay: MediaType, needle: MediaType)
    requires SlashFree(hay)
    ensures Contains(Render(hay), Render(needle)) <==>
      IsSuffix(needle.top, hay.top) && IsPrefix(needle.subtype, hay.subtype)
  {
    var h, n := Render(hay), Render(needle);
    var t1, s1, t2, s2 := hay.top, hay.subtype, needle.top, needle.subtype;
    forall j | 0 <= j < |t1|
      ensures h[j] != '/'
    {
      assert h[j] == t1[j];
    }
    forall j | |t1| < j < |h|
      ensures h[j] != '/'
    {
      assert h[j] == s1[j - |t1| - 1];
    }
    forall i | 0 <= i <= |h| - |n| && WindowAt(h, n, i)
      ensures IsSuffix(t2, t1) && IsPrefix(s2, s1)
    {
      assert h[i + |t2|] == h[i..i + |n|][|t2|] == n[|t2|] == '/';
      assert t1[|t1| - |t2|..] == t2 by {
        forall k | 0 <= k < |t2|
          ensures t1[|t1| - |t2| + k] == t2[k]
        {
          assert h[i + k] == h[i..i + |n|][k] == n[k];
        }
      }
      assert s1[..|s2|] == s2 by {
        forall k | 0 <= k < |s2|
          ensures s1[k] == s2[k]
        {
          assert h[i + |t2| + 1 + k] == h[i..i + |n|][|t2| + 1 + k] == n[|t2| + 1 + k];
        }
      }
    }
    if IsSuffix(t2, t1) && IsPrefix(s2, s1) {
      var i := |t1| - |t2|;
      forall k | 0 <= k < |n|
        ensures h[i..i + |n|][k] == n[k]
      {
        if k < |t2| {
          assert h[i + k] == t1[|t1| - |t2|..][k];
        } else if |t2| < k {
          assert h[i + k] == s1[..|s2|][k - |t2| - 1];
        }
      }
      assert h[i..i + |n|] == n;
      assert WindowAt(h, n, i);
    }
  }

  predicate DiffersAt(p: string, s: string, k: nat) {
    k < |p| && k < |s| && p[k] != s[k]
  }

  /** Cheap evidence that `needle` cannot occur in `hay`: its top is longer
      than the top of `hay` or is not its suffix by the second character, or
      its subtype is longer than the subtype of `hay` or differs from it at one
      of a few probe positions. */
  predicate Apart(hay: MediaType, needle: MediaType) {
    || |needle.top| > |hay.top|
    || (1 < |needle.top| && needle.top[1] != hay.top[|hay.top| - |needle.top| + 1])
    || |needle.subtype| > |hay.subtype|
    || DiffersAt(needle.subtype, hay.subtype, 0)
    || DiffersAt(needle.subtype, hay.subtype, 4)
    || DiffersAt(needle.subtype, hay.subtype, 7)
    || DiffersAt(needle.subtype, hay.subtype, 34)
  }

  lemma ApartNotContained(hay: MediaType, needle: MediaType)
    requires SlashFree(hay) && Apart(hay, needle)
    ensures !Contains(Render(hay), Render(needle))
  {
    MediaContains(hay, needle);
    if |needle.top| <= |hay.top| && 1 < |needle.top|
      && needle.top[1] != hay.top[|hay.top| - |needle.top| + 1]
    {
      NotSuffixAt(needle.top, hay.top, 1);
    }
    if DiffersAt(needle.subtype, hay.subtype, 0) {
      NotPrefixAt(needle.subtype, hay.subtype, 0);
    }
    if DiffersAt(needle.subtype, hay.subtype, 4) {
      NotPrefixAt(needle.subtype, hay.subtype, 4);
    }
    if DiffersAt(needle.subtype, hay.subtype, 7) {
      NotPrefixAt(needle.subtype, hay.subtype, 7);
    }
    if DiffersAt(needle.subtype, hay.subtype, 34) {
      NotPrefixAt(needle.subtype, hay.subtype, 34);
    }
  }

  /** A media type apart from every registry string of `k` is not claimed by `k`. */
  lemma Unclaimed(k: FileKind, hay: MediaType)
    requires SlashFree(hay)
    requires forall j | 0 <= j < |Registry(k)| :: Apart(hay, Registry(k)[j])
    ensures !ClaimsKind(k, Render(hay))
  {
    forall j | 0 <= j < |Registry(k)|
      ensures !Contains(Render(hay), Render(Registry(k)[j]))
    {
      ApartNotContained(hay, Registry(k)[j]);
    }
  }

  /** A lower-case registry string that no earlier kind claims classifies as its
      own kind. */
  lemma ClaimedByOwnKind(hay: MediaType, k: FileKind, j: nat)
    requires j < |Registry(k)| && Registry(k)[j] == hay
    requires NoUpper(Render(hay))
    requires forall k': FileKind | Rank(k') < Rank(k) :: !ClaimsKind(k', Render(hay))
    ensures ClaimedKind(Render(hay)) == Some(k)
  {
    LowerKeepsLowercase(Render(hay));
    PrefixContained(Render(hay), Render(hay));
    assert ClaimsKind(k, Render(hay));
    ClaimedKindIsFirstClaim(Render(hay), k);
  }

  /** No kind has a registry string inside `application/octet-stream`. */
  lemma OctetStreamClaimsNothing(k: FileKind)
    requires SlashFree(App("octet-stream"))
    ensures !ClaimsKind(k, Render(App("octet-stream")))
  {
    var hay := App("octet-stream");
    match k
    case Html => Unclaimed(Html, hay);
    case Text => Unclaimed(Text, hay);
    case Pdf => Unclaimed(Pdf, hay);
    case Word => Unclaimed(Word, hay);
    case Excel => Unclaimed(Excel, hay);
    case PowerPoint => Unclaimed(PowerPoint, hay);
  }

  /** `application/octet-stream` contains no registry string, so content with
      that type is classified by its magic number alone. */
  lemma OctetStreamUnclaimed()
    ensures ClaimedKind(Render(App("octet-stream"))) == None
    ensures !CheckContentType(Render(App("octet-stream")))
  {
    var ct := Render(App("octet-stream"));
    AppShape("octet-stream");
    LowerKeepsLowercase(ct);
    forall k: FileKind
      ensures !ClaimsKind(k, Lower(ct))
    {
      OctetStreamClaimsNothing(k);
    }
    ClaimedKindNone(ct);
    CheckAgreesWithDetector(ct);
  }

  /** The three macro-enabled registry strings contain an upper-case `E`, and
      the content type is lowered before the search, so they never match. */
  lemma MacroEnabledNeverMatch(contentType: string)
    ensures !Contains(Lower(contentType), Render(Registry(Word)[3]))
    ensures !Contains(Lower(contentType), Render(Registry(Excel)[2]))
    ensures !Contains(Lower(contentType), Render(Registry(PowerPoint)[2]))
  {
    var lowered := Lower(contentType);
    assert 'E' !in lowered;
    assert 'E' in "vnd.ms-word.document.macroEnabled.12";
    MissingElement(lowered, Render(Registry(Word)[3]), 'E');
    assert 'E' in "vnd.ms-excel.sheet.macroEnabled.12";
    MissingElement(lowered, Render(Registry(Excel)[2]), 'E');
    assert 'E' in ".presentation.macroEnabled.12";
    MissingElement(lowered, Render(Registry(PowerPoint)[2]), 'E');
  }

  // ---- the Office registry strings classify as their own kinds ------------------

  lemma OpenXmlSlashFree()
    ensures '/' !in OpenXml
  {
  }

  lemma OpenXmlLowercase()
    ensures NoUpper(OpenXml)
  {
  }

  lemma ApplicationLowercase()
    ensures NoUpper("application" + "/")
  {
    NoUpperConcat("application", "/");
  }

  /** An `application/...` type whose subtype has no slash and no upper-case
      letter has a single slash and no upper-case letter. */
  lemma AppShape(subtype: string)
    requires '/' !in subtype && NoUpper(subtype)
    ensures SlashFree(App(subtype)) && NoUpper(Render(App(subtype)))
  {
    ApplicationLowercase();
    NoUpperConcat("application" + "/", subtype);
  }

  lemma OpenXmlShape(part: string)
    requires '/' !in part && NoUpper(part)
    ensures SlashFree(App(OpenXml + part)) && NoUpper(Render(App(OpenXml + part)))
  {
    OpenXmlSlashFree();
    NotInConcat(OpenXml, part, '/');
    OpenXmlLowercase();
    NoUpperConcat(OpenXml, part);
    AppShape(OpenXml + part);
  }

  /** Each Office registry string has a single slash and no upper-case letter. */
  lemma MsWordShape()
    ensures SlashFree(Registry(Word)[0]) && NoUpper(Render(Registry(Word)[0]))
  {
    AppShape("msword");
  }

  lemma DocxShape()
    ensures SlashFree(Registry(Word)[1]) && NoUpper(Render(Registry(Word)[1]))
  {
    OpenXmlShape("wordprocessingml.document");
  }

  lemma MsExcelShape()
    ensures SlashFree(Registry(Excel)[0]) && NoUpper(Render(Registry(Excel)[0]))
  {
    AppShape("vnd.ms-excel");
  }

  lemma XlsxShape()
    ensures SlashFree(Registry(Excel)[1]) && NoUpper(Render(Registry(Excel)[1]))
  {
    OpenXmlShape("spreadsheetml.sheet");
  }

  lemma MsPowerPointShape()
    ensures SlashFree(Registry(PowerPoint)[0]) && NoUpper(Render(Registry(PowerPoint)[0]))
  {
    AppShape("vnd.ms-powerpoint");
  }

  lemma PptxShape()
    ensures SlashFree(Registry(PowerPoint)[1]) && NoUpper(Render(Registry(PowerPoint)[1]))
  {
    OpenXmlShape("presentationml.presentation");
  }

  lemma MsWordIsWordEarlier(k: FileKind)
    requires Rank(k) < Rank(Word) && SlashFree(Registry(Word)[0])
    ensures !ClaimsKind(k, Render(Registry(Word)[0]))
  {
    var hay := Registry(Word)[0];
    if k == Html {
      Unclaimed(Html, hay);
    } else if k == Text {
      Unclaimed(Text, hay);
    } else {
      Unclaimed(Pdf, hay);
    }
  }

  /** `application/msword` classifies as `word`. */
  lemma MsWordIsWord()
    ensures ClaimedKind(Render(Registry(Word)[0])) == Some(Word)
  {
    var hay := Registry(Word)[0];
    MsWordShape();
    forall k: FileKind | Rank(k) < Rank(Word)
      ensures !ClaimsKind(k, Render(hay))
    {
      MsWordIsWordEarlier(k);
    }
    ClaimedByOwnKind(hay, Word, 0);
  }

  lemma DocxTypeIsWordEarlier(k: FileKind)
    requires Rank(k) < Rank(Word) && SlashFree(Registry(Word)[1])
    ensures !ClaimsKind(k, Render(Registry(Word)[1]))
  {
    var hay := Registry(Word)[1];
    if k == Html {
      Unclaimed(Html, hay);
    } else if k == Text {
      Unclaimed(Text, hay);
    } else {
      Unclaimed(Pdf, hay);
    }
  }

  /** The Open XML word-processing type classifies as `word`. */
  lemma DocxTypeIsWord()
    ensures ClaimedKind(Render(Registry(Word)[1])) == Some(Word)
  {
    var hay := Registry(Word)[1];
    DocxShape();
    forall k: FileKind | Rank(k) < Rank(Word)
      ensures !ClaimsKind(k, Render(hay))
    {
      DocxTypeIsWordEarlier(k);
    }
    ClaimedByOwnKind(hay, Word, 1);
  }

  lemma MsExcelIsExcelEarlier(k: FileKind)
    requires Rank(k) < Rank(Excel) && SlashFree(Registry(Excel)[0])
    ensures !ClaimsKind(k, Render(Registry(Excel)[0]))
  {
    var hay := Registry(Excel)[0];
    if k == Html {
      Unclaimed(Html, hay);
    } else if k == Text {
      Unclaimed(Text, hay);
    } else if k == Pdf {
      Unclaimed(Pdf, hay);
    } else {
      Unclaimed(Word, hay);
    }
  }

  /** `application/vnd.ms-excel` classifies as `excel`. */
  lemma MsExcelIsExcel()
    ensures ClaimedKind(Render(Registry(Excel)[0])) == Some(Excel)
  {
    var hay := Registry(Excel)[0];
    MsExcelShape();
    forall k: FileKind | Rank(k) < Rank(Excel)
      ensures !ClaimsKind(k, Render(hay))
    {
      MsExcelIsExcelEarlier(k);
    }
    ClaimedByOwnKind(hay, Excel, 0);
  }

  lemma XlsxTypeIsExcelEarlier(k: FileKind)
    requires Rank(k) < Rank(Word) && SlashFree(Registry(Excel)[1])
    ensures !ClaimsKind(k, Render(Registry(Excel)[1]))
  {
    var hay := Registry(Excel)[1];
    if k == Html {
      Unclaimed(Html, hay);
    } else if k == Text {
      Unclaimed(Text, hay);
    } else {
      Unclaimed(Pdf, hay);
    }
  }

  /** The Open XML spreadsheet type classifies as `excel`. */
  lemma XlsxTypeIsExcel()
    ensures ClaimedKind(Render(Registry(Excel)[1])) == Some(Excel)
  {
    var hay := Registry(Excel)[1];
    XlsxShape();
    forall k: FileKind | Rank(k) < Rank(Excel)
      ensures !ClaimsKind(k, Render(hay))
    {
      if k == Word {
        Unclaimed(Word, hay);
      } else {
        XlsxTypeIsExcelEarlier(k);
      }
    }
    ClaimedByOwnKind(hay, Excel, 1);
  }

  lemma MsPowerPointIsPowerPointEarlier(k: FileKind)
    requires Rank(k) < Rank(Word) && SlashFree(Registry(PowerPoint)[0])
    ensures !ClaimsKind(k, Render(Registry(PowerPoint)[0]))
  {
    var hay := Registry(PowerPoint)[0];
    if k == Html {
      Unclaimed(Html, hay);
    } else if k == Text {
      Unclaimed(Text, hay);
    } else {
      Unclaimed(Pdf, hay);
    }
  }

  lemma MsPowerPointIsPowerPointOffice(k: FileKind)
    requires Rank(Word) <= Rank(k) < Rank(PowerPoint) && SlashFree(Registry(PowerPoint)[0])
    ensures !ClaimsKind(k, Render(Registry(PowerPoint)[0]))
  {
    var hay := Registry(PowerPoint)[0];
    if k == Word {
      Unclaimed(Word, hay);
    } else {
      Unclaimed(Excel, hay);
    }
  }

  /** `application/vnd.ms-powerpoint` classifies as `powerpoint`. */
  lemma MsPowerPointIsPowerPoint()
    ensures ClaimedKind(Render(Registry(PowerPoint)[0])) == Some(PowerPoint)
  {
    var hay := Registry(PowerPoint)[0];
    MsPowerPointShape();
    forall k: FileKind | Rank(k) < Rank(PowerPoint)
      ensures !ClaimsKind(k, Render(hay))
    {
      if Rank(k) < Rank(Word) {
        MsPowerPointIsPowerPointEarlier(k);
      } else {
        MsPowerPointIsPowerPointOffice(k);
      }
    }
    ClaimedByOwnKind(hay, PowerPoint, 0);
  }

  lemma PptxTypeIsPowerPointEarlier(k: FileKind)
    requires Rank(k) < Rank(Word) && SlashFree(Registry(PowerPoint)[1])
    ensures !ClaimsKind(k, Render(Registry(PowerPoint)[1]))
  {
    var hay := Registry(PowerPoint)[1];
    if k == Html {
      Unclaimed(Html, hay);
    } else if k == Text {
      Unclaimed(Text, hay);
    } else {
      Unclaimed(Pdf, hay);
    }
  }

  lemma PptxTypeIsPowerPointOffice(k: FileKind)
    requires Rank(Word) <= Rank(k) < Rank(PowerPoint) && SlashFree(Registry(PowerPoint)[1])
    ensures !ClaimsKind(k, Render(Registry(PowerPoint)[1]))
  {
    var hay := Registry(PowerPoint)[1];
    if k == Word {
      Unclaimed(Word, hay);
    } else {
      Unclaimed(Excel, hay);
    }
  }

  /** The Open XML presentation type classifies as `powerpoint`. */
  lemma PptxTypeIsPowerPoint()
    ensures ClaimedKind(Render(Registry(PowerPoint)[1])) == Some(PowerPoint)
  {
    var hay := Registry(PowerPoint)[1];
    PptxShape();
    forall k: FileKind | Rank(k) < Rank(PowerPoint)
      ensures !ClaimsKind(k, Render(hay))
    {
      if Rank(k) < Rank(Word) {
        PptxTypeIsPowerPointEarlier(k);
      } else {
        PptxTypeIsPowerPointOffice(k);
      }
    }
    ClaimedByOwnKind(hay, PowerPoint, 1);
  }

  /** `text/plain` classifies as `text`. */
  lemma TextPlainIsText()
    ensures ClaimedKind(Render(TextPlain)) == Some(Text)
  {
    Unclaimed(Html, TextPlain);
    assert NoUpper(Render(TextPlain));
    ClaimedByOwnKind(TextPlain, Text, 0);
  }

  // ---- what the extension detector decides ---------------------------------------

  /** A slash-free needle inside `top/subtype` lies wholly in one of the two. */
  lemma {:induction false} SlashlessInMedia(m: MediaType, n: string)
    requires '/' !in n
    ensures Contains(Render(m), n) ==> Contains(m.top, n) || Contains(m.subtype, n)
  {
    var h := Render(m);
    forall i | 0 <= i <= |h| - |n| && WindowAt(h, n, i)
      ensures Contains(m.top, n) || Contains(m.subtype, n)
    {
      forall p | i <= p < i + |n|
        ensures h[p] != '/'
      {
        assert h[p] == h[i..i + |n|][p - i] == n[p - i];
        assert n[p - i] in n;
      }
      assert h[|m.top|] == '/';
      if i + |n| <= |m.top| {
        assert m.top[i..i + |n|] == h[i..i + |n|];
        assert WindowAt(m.top, n, i);
      } else {
        var j := i - |m.top| - 1;
        assert m.subtype[j..j + |n|] == h[i..i + |n|];
        assert WindowAt(m.subtype, n, j);
      }
    }
  }

  lemma InSubtype(m: MediaType, n: string)
    requires Contains(m.subtype, n)
    ensures Contains(Render(m), n)
  {
    ContainedInRight(m.top + "/", m.subtype, n);
  }

  /** A slash-free needle with a character that neither half has is absent. */
  lemma LacksMarker(m: MediaType, n: string, c: char)
    requires '/' !in n && c in n && c !in m.top && c !in m.subtype
    ensures !Contains(Render(m), n)
  {
    SlashlessInMedia(m, n);
    MissingElement(m.top, n, c);
    MissingElement(m.subtype, n, c);
  }

  lemma OpenXmlHasMarker(part: string, marker: string)
    requires IsPrefix(marker, part)
    ensures Contains(Render(App(OpenXml + part)), marker)
  {
    PrefixContained(marker, part);
    ContainedInRight(OpenXml, part, marker);
    InSubtype(App(OpenXml + part), marker);
  }

  lemma OpenXmlLacksMarker(part: string, marker: string, c: char)
    requires '/' !in marker && c in marker && c !in "application" && c !in OpenXml && c !in part
    ensures !Contains(Render(App(OpenXml + part)), marker)
  {
    NotInConcat(OpenXml, part, c);
    LacksMarker(App(OpenXml + part), marker, c);
  }

  lemma DocxResolves(rest: seq<byte>)
    ensures DetectFileExtension(Zip + rest, Render(Registry(Word)[1])) == Some(".docx")
  {
    assert IsPrefix(Zip, Zip + rest);
    OpenXmlHasMarker("wordprocessingml.document", "wordprocessingml");
  }

  lemma XlsxResolves(rest: seq<byte>)
    ensures DetectFileExtension(Zip + rest, Render(Registry(Excel)[1])) == Some(".xlsx")
  {
    assert IsPrefix(Zip, Zip + rest);
    OpenXmlLacksMarker("spreadsheetml.sheet", "wordprocessingml", 'w');
    OpenXmlHasMarker("spreadsheetml.sheet", "spreadsheetml");
  }

  lemma PresentationLacksWordMarker()
    ensures !Contains(Render(Registry(PowerPoint)[1]), "wordprocessingml")
  {
    OpenXmlLacksMarker("presentationml.presentation", "wordprocessingml", 'w');
  }

  lemma PresentationLacksSheetMarker()
    ensures !Contains(Render(Registry(PowerPoint)[1]), "spreadsheetml")
  {
    OpenXmlLacksMarker("presentationml.presentation", "spreadsheetml", 'h');
  }

  lemma PptxResolves(rest: seq<byte>)
    ensures DetectFileExtension(Zip + rest, Render(Registry(PowerPoint)[1])) == Some(".pptx")
  {
    assert IsPrefix(Zip, Zip + rest);
    PresentationLacksWordMarker();
    PresentationLacksSheetMarker();
    OpenXmlHasMarker("presentationml.presentation", "presentationml");
  }

  /** A ZIP payload carrying the Open XML type of an Office kind gets that kind's
      modern extension. */
  lemma ZipTypesResolve(rest: seq<byte>)
    ensures forall k | IsOffice(k) ::
      DetectFileExtension(Zip + rest, Render(Registry(k)[1])) == Some(Extensions(k)[1])
  {
    DocxResolves(rest);
    XlsxResolves(rest);
    PptxResolves(rest);
  }

  lemma Ole2Start(rest: seq<byte>)
    ensures !IsPrefix(Zip, Ole2 + rest) && IsPrefix(Ole2, Ole2 + rest)
  {
    NotPrefixAt(Zip, Ole2 + rest, 0);
  }

  lemma MsWordNotInApplication()
    ensures !Contains("application", "msword")
  {
    MissingElement("application", "msword", 'm');
  }

  lemma MsWordNotInPowerPointSubtype()
    ensures !Contains("vnd.ms-powerpoint", "msword")
  {
    AnchoredAtFirst("vnd.ms-powerpoint", "msword", 4);
    NotPrefixAt("msword", "vnd.ms-powerpoint"[4..], 2);
  }

  lemma MsWordNotInVndMsWordSubtype()
    ensures !Contains("vnd.ms-word", "msword")
  {
    AnchoredAtFirst("vnd.ms-word", "msword", 4);
    NotPrefixAt("msword", "vnd.ms-word"[4..], 2);
  }

  lemma MsWordNotInPowerPoint()
    ensures !Contains(Render(App("vnd.ms-powerpoint")), "msword")
  {
    SlashlessInMedia(App("vnd.ms-powerpoint"), "msword");
    MsWordNotInApplication();
    MsWordNotInPowerPointSubtype();
  }

  lemma MsWordNotInVndMsWord()
    ensures !Contains(Render(App("vnd.ms-word")), "msword")
  {
    SlashlessInMedia(App("vnd.ms-word"), "msword");
    MsWordNotInApplication();
    MsWordNotInVndMsWordSubtype();
  }

  lemma DocResolves(rest: seq<byte>)
    ensures DetectFileExtension(Ole2 + rest, Render(Registry(Word)[0])) == Some(".doc")
  {
    Ole2Start(rest);
    PrefixContained("msword", "msword");
    InSubtype(App("msword"), "msword");
  }

  lemma XlsResolves(rest: seq<byte>)
    ensures DetectFileExtension(Ole2 + rest, Render(Registry(Excel)[0])) == Some(".xls")
  {
    Ole2Start(rest);
    LacksMarker(App("vnd.ms-excel"), "msword", 'w');
    assert WindowAt("vnd.ms-excel", "ms-excel", 4);
    InSubtype(App("vnd.ms-excel"), "ms-excel");
  }

  lemma ExcelMarkerNotInPowerPoint()
    ensures !Contains(Render(App("vnd.ms-powerpoint")), "ms-excel")
  {
    LacksMarker(App("vnd.ms-powerpoint"), "ms-excel", 'x');
  }

  lemma PowerPointMarkerInPowerPoint()
    ensures Contains(Render(App("vnd.ms-powerpoint")), "ms-powerpoint")
  {
    assert WindowAt("vnd.ms-powerpoint", "ms-powerpoint", 4);
    InSubtype(App("vnd.ms-powerpoint"), "ms-powerpoint");
  }

  lemma PptResolves(rest: seq<byte>)
    ensures DetectFileExtension(Ole2 + rest, Render(Registry(PowerPoint)[0])) == Some(".ppt")
  {
    Ole2Start(rest);
    MsWordNotInPowerPoint();
    ExcelMarkerNotInPowerPoint();
    PowerPointMarkerInPowerPoint();
  }

  /** An OLE2 payload carrying the legacy type of an Office kind gets that kind's
      legacy extension. */
  lemma Ole2TypesResolve(rest: seq<byte>)
    ensures forall k | IsOffice(k) ::
      DetectFileExtension(Ole2 + rest, Render(Registry(k)[0])) == Some(Extensions(k)[0])
  {
    DocResolves(rest);
    XlsResolves(rest);
    PptResolves(rest);
  }

  /** `application/vnd.ms-word` is a Word registry string, yet an OLE2 payload
      carrying it gets no extension: the marker searched for is `msword`. */
  lemma VndMsWordHasNoExtension(rest: seq<byte>)
    ensures ClaimsKind(Word, Render(Registry(Word)[2]))
    ensures DetectFileExtension(Ole2 + rest, Render(Registry(Word)[2])) == None
  {
    var m := App("vnd.ms-word");
    PrefixContained(Render(m), Render(m));
    Ole2Start(rest);
    MsWordNotInVndMsWord();
    LacksMarker(m, "ms-excel", 'x');
    LacksMarker(m, "ms-powerpoint", 'e');
  }

  /** The search over the Office kinds in table order: the kinds before `word`
      never pass, so it starts at `word`. */
  lemma MarkedKindUnfolds(contentType: string, zip: bool)
    ensures MarkedKind(contentType, zip) ==
      if Contains(contentType, Marker(Word, zip)) then Some(Word)
      else if Contains(contentType, Marker(Excel, zip)) then Some(Excel)
      else if Contains(contentType, Marker(PowerPoint, zip)) then Some(PowerPoint)
      else None
  {
    var test := k => IsOffice(k) && Contains(contentType, Marker(k, zip));
    assert FirstKind(test, 0) == FirstKind(test, 1) == FirstKind(test, 2) == FirstKind(test, 3);
    assert FirstKind(test, 4) == if test(Excel) then Some(Excel) else FirstKind(test, 5);
    assert FirstKind(test, 5) == if test(PowerPoint) then Some(PowerPoint) else None;
  }

  /** `detect_file_extension` on any payload and content type: outside an OLE2
      or ZIP container, or without a content type, there is no extension;
      otherwise it is the extension of the first Office kind whose marker the
      content type holds, the modern one for ZIP and the legacy one for OLE2,
      and there is none when the content type holds no marker. */
  lemma ExtensionByMarker(content: seq<byte>, contentType: string)
    ensures var zip := IsPrefix(Zip, content);
      DetectFileExtension(content, contentType) ==
        if (!zip && !IsPrefix(Ole2, content)) || contentType == "" then None
        else match MarkedKind(contentType, zip)
          case None => None
          case Some(k) => Some(Extensions(k)[if zip then 1 else 0])
  {
    MarkedKindUnfolds(contentType, IsPrefix(Zip, content));
  }

  /** The markers are searched for without lowering, and each holds a
      lower-case `m`: a content type written without lower-case letters never
      yields an extension, whereas the content-type stage lowers it first. */
  lemma ExtensionIsCaseSensitive(content: seq<byte>, contentType: string)
    requires forall c | c in contentType :: !('a' <= c <= 'z')
    ensures DetectFileExtension(content, contentType) == None
  {
    ExtensionByMarker(content, contentType);
    var zip := IsPrefix(Zip, content);
    forall k | IsOffice(k)
      ensures !Contains(contentType, Marker(k, zip))
    {
      MissingElement(contentType, Marker(k, zip), 'm');
    }
  }

  /** A ZIP payload with the upper-case marker `WORDPROCESSINGML` gets no
      extension, although the same marker in lower case gives `.docx`. */
  lemma UpperCaseMarkerIgnored(rest: seq<byte>)
    ensures DetectFileExtension(Zip + rest, "WORDPROCESSINGML") == None
    ensures DetectFileExtension(Zip + rest, "wordprocessingml") == Some(".docx")
  {
    ExtensionIsCaseSensitive(Zip + rest, "WORDPROCESSINGML");
    assert IsPrefix(Zip, Zip + rest);
    PrefixContained("wordprocessingml", "wordprocessingml");
  }

  /** The content-type stage and `check_content_type` lower the content type
      before searching, so two content types that differ only in the case of
      ASCII letters are treated alike, whatever the payload. */
  lemma DetectIgnoresCase(s: string, t: string)
    requires EqualIgnoringCase(s, t)
    ensures ClaimedKind(s) == ClaimedKind(t)
    ensures CheckContentType(s) == CheckContentType(t)
    ensures forall p: Payload :: DetectFileType(p, s) == DetectFileType(p, t)
  {
    LowerIdentifiesCase(s, t);
  }

  /** `application/pdf` claims `pdf`. */
  lemma PdfTypeIsPdf()
    ensures ClaimedKind(Render(App("pdf"))) == Some(Pdf)
  {
    var hay := App("pdf");
    AppShape("pdf");
    Unclaimed(Html, hay);
    Unclaimed(Text, hay);
    ClaimedByOwnKind(hay, Pdf, 0);
  }

  lemma UpperCasePdfType()
    ensures EqualIgnoringCase("APPLICATION/PDF", Render(App("pdf")))
  {
    var s, t := "APPLICATION/PDF", Render(App("pdf"));
    assert t == "application/pdf";
    forall i | 0 <= i < |s|
      ensures LowerChar(s[i]) == LowerChar(t[i])
    {
      assert IsUpper(s[i]) || s[i] == '/';
    }
  }

  /** `APPLICATION/PDF` claims `pdf`, as `application/pdf` does. */
  lemma UpperCasePdfTypeIsPdf()
    ensures ClaimedKind("APPLICATION/PDF") == Some(Pdf)
  {
    PdfTypeIsPdf();
    UpperCasePdfType();
    DetectIgnoresCase("APPLICATION/PDF", Render(App("pdf")));
  }

  /** A ZIP Word document is detected as `word` and saved under the legacy
      `.doc` name, although its container says `.docx`. */
  lemma DocxSavedAsDoc(stamp: string, rest: seq<byte>)
    ensures DetectFileType(Bytes(Zip + rest), Render(Registry(Word)[1])) == Detected(Word)
    ensures DetectFileExtension(Zip + rest, Render(Registry(Word)[1])) == Some(".docx")
    ensures TempFileName(stamp, Word) == "temp_" + stamp + ".doc"
  {
    DocxTypeIsWord();
    DocxResolves(rest);
  }
}
