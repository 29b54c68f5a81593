/** A reader of what stands behind a page of a PCLm file: the content stream that draws its images, the images,
    and the colour profile (ISO 32000-1, sections 7.3.8, 8.5 and 8.9). It knows nothing but their text. */
module PclmStreams {
  import opened Common
  import opened PdfText
  import opened PdfReader
  import opened PclmTexts

  // ----- streams -----

  /** n characters, behind which `end` stands. */
  function Taken(s: string, n: nat, end: string): Option<string> {
    if n <= |s| && Expect(s[n..], end).Some? then Some(s[..n]) else None
  }

  /** As many characters as `/Length` says. */
  function ReadStream(s: string): Option<string> {
    match Expect(s, "<<\n/Length ")
    case None => None
    case Some(s1) =>
      match ReadDec(s1)
      case None => None
      case Some((n, s2)) =>
        match Expect(s2, "\n>>\nstream\n")
        case None => None
        case Some(s3) => Taken(s3, n, "endstream\nendobj\n")
  }

  // ----- what a page draws -----

  function ReadInt(s: string): (r: Option<(int, string)>)
    ensures r.Some? ==> |r.value.1| < |s|
  {
    match Expect(s, "-")
    case None => (match ReadDec(s) case None => None case Some((n, rest)) => Some((n, rest)))
    case Some(s1) =>
      (match ReadDec(s1)
       case None => None
       case Some((n, rest)) => Some((-(n as int), rest)))
  }

  /** An image on the page, in dots: its number, its size, and where its lower edge lies. */
  datatype Drawn = Drawn(image: nat, width: nat, height: int, y: int)

  /** The matrix of an image: width, no skew, height, no shift to the right, and how far up. */
  function ReadMatrix(s: string): (r: Option<((nat, int, int), string)>)
    ensures r.Some? ==> |r.value.1| < |s|
  {
    match ReadDec(s)
    case None => None
    case Some((width, s1)) =>
      match Expect(s1, " 0 0 ")
      case None => None
      case Some(s2) =>
        match ReadInt(s2)
        case None => None
        case Some((height, s3)) =>
          match Expect(s3, " 0 ")
          case None => None
          case Some(s4) =>
            match ReadInt(s4)
            case None => None
            case Some((y, s5)) =>
              match Expect(s5, " cm\n")
              case None => None
              case Some(s6) => Some(((width, height, y), s6))
  }

  function ReadDrawn(s: string): (r: Option<(Drawn, string)>)
    ensures r.Some? ==> |r.value.1| < |s|
  {
    match Expect(s, "/P <</MCID 0>> BDC q\n")
    case None => None
    case Some(s1) =>
      match ReadMatrix(SkipComments(s1))
      case None => None
      case Some((m, s2)) =>
        match Expect(s2, "/Image")
        case None => None
        case Some(s3) =>
          match ReadDec(s3)
          case None => None
          case Some((image, s4)) =>
            match Expect(s4, " Do Q\n")
            case None => None
            case Some(s5) => Some((Drawn(image, m.0, m.1, m.2), s5))
  }

  /** Images up to the end. */
  function ReadAllDrawn(s: string): Option<seq<Drawn>>
    decreases |s|
  {
    if s == "" then Some([])
    else
      match ReadDrawn(s)
      case None => None
      case Some((d, s1)) =>
        match ReadAllDrawn(s1)
        case None => None
        case Some(more) => Some([d] + more)
  }

  /** A number of six decimals below one, in millionths. */
  function ReadMillionths(s: string): Option<(nat, string)> {
    match Expect(s, "0.")
    case None => None
    case Some(s1) => if Digits(s1) == 6 then ReadDec(s1) else None
  }

  /** How many millionths of a point a dot is, in both directions. */
  function ReadScale(s: string): Option<(nat, string)> {
    match ReadMillionths(s)
    case None => None
    case Some((x, s1)) =>
      match Expect(s1, " 0 0 ")
      case None => None
      case Some(s2) =>
        match ReadMillionths(s2)
        case None => None
        case Some((y, s3)) =>
          match Expect(s3, " 0 0 cm\n")
          case None => None
          case Some(s4) => if x == y then Some((x, s4)) else None
  }

  datatype Content = Content(scale: nat, drawn: seq<Drawn>)

  function ReadContent(s: string): Option<Content> {
    match ReadScale(s)
    case None => None
    case Some((scale, s1)) =>
      match ReadAllDrawn(s1)
      case None => None
      case Some(drawn) => Some(Content(scale, drawn))
  }

  // ----- images -----

  datatype Image = Image(width: nat, height: nat, color: ColorSpace, filter: Compression, white: bool, data: string)

  function ReadColorName(s: string): Option<(ColorSpace, string)> {
    match (Expect(s, "/DeviceRGB\n"), Expect(s, "/DeviceGray\n"), Expect(s, "5 0 R\n"))
    case (Some(rest), _, _) => Some((DeviceRGB, rest))
    case (_, Some(rest), _) => Some((GrayScale, rest))
    case (_, _, Some(rest)) => Some((AdobeRGB, rest))
    case _ => None
  }

  function ReadColor(s: string): Option<(ColorSpace, string)> {
    match Expect(s, "/ColorSpace ")
    case None => None
    case Some(s1) => ReadColorName(s1)
  }

  function ReadFilterName(s: string): Option<(Compression, string)> {
    match (Expect(s, "DCTDecode\n"), Expect(s, "FlateDecode\n"), Expect(s, "RunLengthDecode\n"))
    case (Some(rest), _, _) => Some((Dct, rest))
    case (_, Some(rest), _) => Some((Flate, rest))
    case (_, _, Some(rest)) => Some((Rle, rest))
    case _ => None
  }

  function ReadFilter(s: string): Option<(Compression, string)> {
    match Expect(s, "/Filter /")
    case None => None
    case Some(s1) => ReadFilterName(s1)
  }

  function ReadStripName(s: string): Option<(bool, string)> {
    match (Expect(s, "WhiteStrip\n"), Expect(s, "ColorStrip\n"))
    case (Some(rest), _) => Some((true, rest))
    case (_, Some(rest)) => Some((false, rest))
    case _ => None
  }

  function ReadName(s: string): Option<(bool, string)> {
    match Expect(s, "/Name /")
    case None => None
    case Some(s1) => ReadStripName(s1)
  }

  /** Width, colour space, height and filter of an image. */
  function ReadImageHead(s: string): Option<((nat, nat, ColorSpace, Compression), string)> {
    match Expect(s, "<<\n/Width ")
    case None => None
    case Some(s1) =>
      match ReadDec(s1)
      case None => None
      case Some((width, s2)) =>
        match Expect(s2, "\n")
        case None => None
        case Some(s3) =>
          match ReadColor(s3)
          case None => None
          case Some((color, s4)) =>
            match Expect(s4, "/Height ")
            case None => None
            case Some(s5) =>
              match ReadDec(s5)
              case None => None
              case Some((height, s6)) =>
                match Expect(s6, "\n")
                case None => None
                case Some(s7) =>
                  match ReadFilter(s7)
                  case None => None
                  case Some((filter, s8)) => Some(((width, height, color, filter), s8))
  }

  /** The kind of strip, and as many characters as `/Length` says. */
  function ReadImageData(s: string): Option<(bool, string)> {
    match Expect(s, "/Subtype /Image\n/Length ")
    case None => None
    case Some(s1) =>
      match ReadDec(s1)
      case None => None
      case Some((n, s2)) =>
        match Expect(s2, "\n/Type /XObject\n/BitsPerComponent 8\n")
        case None => None
        case Some(s3) =>
          match ReadName(s3)
          case None => None
          case Some((white, s4)) =>
            match Expect(s4, ">>\nstream\n")
            case None => None
            case Some(s5) =>
              match Taken(s5, n, "\nendstream\nendobj\n")
              case None => None
              case Some(data) => Some((white, data))
  }

  function ReadImage(s: string): Option<Image> {
    match ReadImageHead(s)
    case None => None
    case Some((h, s1)) =>
      match ReadImageData(s1)
      case None => None
      case Some((white, data)) => Some(Image(h.0, h.1, h.2, h.3, white, data))
  }

  // ----- the colour profile -----

  /** The number of the profile of an ICC based colour space. */
  function ReadColorSpace(s: string): Option<nat> {
    match Expect(s, "[/ICCBased ")
    case None => None
    case Some(s1) =>
      match ReadDec(s1)
      case None => None
      case Some((n, s2)) => if Expect(s2, " 0 R]\nendobj\n").Some? then Some(n) else None
  }

  /** A profile for three components: as many characters as `/Length` says. */
  function ReadProfile(s: string): Option<string> {
    match Expect(s, "<<\n/N 3\n/Alternate /DeviceRGB\n/Length ")
    case None => None
    case Some(s1) =>
      match ReadDec(s1)
      case None => None
      case Some((n, s2)) =>
        match Expect(s2, "\n/Filter /FlateDecode\n>>\nstream\n")
        case None => None
        case Some(s3) => Taken(s3, n, "endstream\nendobj\n")
  }

  // ----- what the writer's streams read as -----

  lemma TakenBack(data: string, end: string, rest: string)
    ensures Taken(data + (end + rest), |data|, end) == Some(data)
  {
    var s := data + (end + rest);
    assert s[..|data|] == data && s[|data|..] == end + rest;
    Expected(end, rest);
  }

  /** A stream reads back as what was put into it. */
  lemma StreamReads(content: string, rest: string)
    ensures ReadStream(StreamText(content) + rest) == Some(content)
  {
    hide Dec, ReadDec, Taken, Expect;
    var s3 := content + ("endstream\nendobj\n" + rest);
    var s2 := "\n>>\nstream\n" + s3;
    var s1 := Dec(|content|) + s2;
    assert StreamText(content) + rest == "<<\n/Length " + s1;
    Expected("<<\n/Length ", s1);
    DecReads(|content|, s2);
    Expected("\n>>\nstream\n", s3);
    TakenBack(content, "endstream\nendobj\n", rest);
  }

  /** The object behind every strip draws the image of that name. */
  lemma TransformReads(rest: string)
    ensures ReadStream(TransformText() + rest) == Some("q /image Do Q\n")
  {
    hide Dec, ReadStream;
    StreamReads("q /image Do Q\n", rest);
    assert TransformText() == StreamText("q /image Do Q\n");
  }

  lemma IntReads(n: int, rest: string)
    requires rest == "" || !IsDigit(rest[0])
    ensures ReadInt(DecInt(n) + rest) == Some((n, rest))
  {
    hide Dec, ReadDec;
    if n < 0 {
      assert DecInt(n) + rest == "-" + (Dec(-n) + rest);
      Expected("-", Dec(-n) + rest);
      DecReads(-n, rest);
    } else {
      DecReads(n, rest);
      NoMinus(n, rest);
    }
  }

  lemma NoMinus(n: nat, rest: string)
    ensures Expect(Dec(n) + rest, "-") == None
  {
    DecMeans(n);
    assert (Dec(n) + rest)[0] == Dec(n)[0] && IsDigit(Dec(n)[0]);
    hide Dec;
  }

  lemma MatrixReads(width: nat, height: int, y: int, s6: string)
    ensures ReadMatrix(Dec(width) + (" 0 0 " + (DecInt(height) + (" 0 " + (DecInt(y) + (" cm\n" + s6))))))
         == Some(((width, height, y), s6))
  {
    hide Dec, DecInt, ReadDec, ReadInt, Expect;
    var s5 := " cm\n" + s6;
    var s4 := DecInt(y) + s5;
    var s3 := " 0 " + s4;
    var s2 := DecInt(height) + s3;
    var s1 := " 0 0 " + s2;
    DecReads(width, s1);
    Expected(" 0 0 ", s2);
    IntReads(height, s3);
    Expected(" 0 ", s4);
    IntReads(y, s5);
    Expected(" cm\n", s6);
  }

  lemma MatrixLineIsComment()
    ensures MatrixLine() != "" && MatrixLine()[0] == '%'
  {
  }

  lemma MatrixLineIsLine()
    ensures '\n' !in MatrixLine()
  {
    FieldsAreInLine();
    hide MatrixFields;
    assert '\n' !in "%Image Transformation Matrix: ";
  }

  lemma FieldsAreInLine()
    ensures '\n' !in MatrixFields()
  {
    assert '\n' !in "width, skewX, skewY, ";
    assert '\n' !in "height, xAnchor, yAnchor";
  }

  lemma CommentSkipped(rest: string)
    requires rest != "" && rest[0] != '%'
    ensures SkipComments(MatrixComment() + rest) == rest
  {
    hide MatrixLine;
    MatrixLineIsComment();
    MatrixLineIsLine();
    AfterLineOf(MatrixLine(), rest);
    assert (MatrixLine() + "\n" + rest)[0] == MatrixLine()[0];
    assert SkipComments(rest) == rest;
  }

  lemma NumberIsNoComment(n: nat, rest: string)
    ensures Dec(n) + rest != "" && (Dec(n) + rest)[0] != '%'
  {
    DecMeans(n);
    assert (Dec(n) + rest)[0] == Dec(n)[0] && IsDigit(Dec(n)[0]);
    hide Dec;
  }

  /** A placement reads back as the image of its number, at its size and place. */
  lemma DrawnReads(width: nat, k: nat, p: Place, rest: string)
    ensures ReadDrawn(PlaceText(width, k, p) + rest) == Some((Drawn(k, width, p.height, p.y), rest))
  {
    hide Dec, DecInt, ReadDec, ReadMatrix, Expect, SkipComments, MatrixComment;
    var s4 := " Do Q\n" + rest;
    var s3 := Dec(k) + s4;
    var s2 := "/Image" + s3;
    var tail := " 0 0 " + (DecInt(p.height) + (" 0 " + (DecInt(p.y) + (" cm\n" + s2))));
    var s1 := MatrixComment() + (Dec(width) + tail);
    assert " cm\n/Image" == " cm\n" + "/Image";
    assert PlaceText(width, k, p) + rest == "/P <</MCID 0>> BDC q\n" + s1;
    Expected("/P <</MCID 0>> BDC q\n", s1);
    NumberIsNoComment(width, tail);
    CommentSkipped(Dec(width) + tail);
    MatrixReads(width, p.height, p.y, s2);
    Expected("/Image", s3);
    DecReads(k, s4);
    Expected(" Do Q\n", rest);
  }

  /** The placements, written from the front. */
  function PlacesFrom(width: nat, places: seq<Place>, k: nat): string {
    if places == [] then "" else PlaceText(width, k, places[0]) + PlacesFrom(width, places[1..], k + 1)
  }

  lemma {:induction false} PlacesSnoc(width: nat, places: seq<Place>, k: nat, p: Place)
    ensures PlacesFrom(width, places + [p], k) == PlacesFrom(width, places, k) + PlaceText(width, k + |places|, p)
  {
    hide PlaceText;
    if places == [] {
      assert places + [p] == [p] && [p][1..] == [];
      assert PlacesFrom(width, [p], k) == PlaceText(width, k, p) + "";
    } else {
      PlacesSnoc(width, places[1..], k + 1, p);
      assert (places + [p])[1..] == places[1..] + [p];
    }
  }

  lemma {:induction false} ContentMeans(r: Resolution, width: nat, places: seq<Place>)
    ensures ContentText(r, width, places) == ScaleText(r) + PlacesFrom(width, places, 0)
  {
    hide PlaceText, ScaleText;
    if places != [] {
      var front, last := places[..|places| - 1], places[|places| - 1];
      ContentMeans(r, width, front);
      PlacesSnoc(width, front, 0, last);
      assert places == front + [last];
    } else {
      assert ScaleText(r) + "" == ScaleText(r);
    }
  }

  /** What a reader should find for placements numbered from k on. */
  function DrawnFrom(width: nat, places: seq<Place>, k: nat): (d: seq<Drawn>)
    ensures |d| == |places|
  {
    seq(|places|, i requires 0 <= i < |places| => Drawn(k + i, width, places[i].height, places[i].y))
  }

  lemma {:induction false} AllDrawnRead(width: nat, places: seq<Place>, k: nat)
    ensures ReadAllDrawn(PlacesFrom(width, places, k)) == Some(DrawnFrom(width, places, k))
  {
    hide PlaceText, ReadDrawn;
    if places == [] {
      assert DrawnFrom(width, places, k) == [];
    } else {
      var s := PlacesFrom(width, places[1..], k + 1);
      AllDrawnRead(width, places[1..], k + 1);
      DrawnReads(width, k, places[0], s);
      PlaceIsText(width, k, places[0], s);
      assert [Drawn(k, width, places[0].height, places[0].y)] + DrawnFrom(width, places[1..], k + 1)
          == DrawnFrom(width, places, k);
    }
  }

  lemma PlaceIsText(width: nat, k: nat, p: Place, rest: string)
    ensures PlaceText(width, k, p) + rest != ""
  {
    hide Dec, DecInt, MatrixComment;
  }

  /** The scale maps dots to points: 72 of them are an inch. */
  lemma ScaleReads(r: Resolution, rest: string)
    ensures ReadScale(ScaleText(r) + rest) == Some((72_000_000 / r.Dpi(), rest))
    ensures 72_000_000 / r.Dpi() * r.Dpi() == 72_000_000
  {
    hide SixDecimals, ReadMillionths, Expect;
    var n := 72_000_000 / r.Dpi();
    var s3 := " 0 0 cm\n" + rest;
    var s2 := SixDecimals(n) + s3;
    var s1 := " 0 0 " + s2;
    assert ScaleText(r) + rest == SixDecimals(n) + s1;
    hide ScaleText;
    MillionthsRead(n, s1);
    Expected(" 0 0 ", s2);
    MillionthsRead(n, s3);
    Expected(" 0 0 cm\n", rest);
  }

  lemma SixDigits(n: nat)
    requires n < 1_000_000
    ensures var d := Padded(6, Dec(n)); |d| == 6 && AllDigits(d) && Value(d) == n
  {
    hide Dec, AllDigits, Value;
    PaddedMeans(6, n);
    assert Power10(6) == 1_000_000;
    DecLength(n, 6);
  }

  lemma MillionthsRead(n: nat, rest: string)
    requires n < 1_000_000 && rest != "" && !IsDigit(rest[0])
    ensures ReadMillionths(SixDecimals(n) + rest) == Some((n, rest))
  {
    hide Dec, Padded, Value, Digits, AllDigits;
    var d := Padded(6, Dec(n));
    SixDigits(n);
    assert SixDecimals(n) + rest == "0." + (d + rest);
    Expected("0.", d + rest);
    DigitsOf(d, rest);
    assert (d + rest)[..6] == d && (d + rest)[6..] == rest;
  }

  /** A page's content reads back as its images 0, 1, 2, ..., all of the page's width, each as high and where it
      was placed, at as many points to the dot as the resolution asks for. */
  lemma ContentReads(r: Resolution, width: nat, places: seq<Place>)
    ensures var c := ReadContent(ContentText(r, width, places));
            && c.Some? && c.value.scale * r.Dpi() == 72 * 1_000_000 && |c.value.drawn| == |places|
            && forall k | 0 <= k < |places| ::
                 c.value.drawn[k] == Drawn(k, width, places[k].height, places[k].y)
  {
    hide ScaleText, ContentText, PlacesFrom, ReadScale, ReadAllDrawn;
    ContentMeans(r, width, places);
    ScaleReads(r, PlacesFrom(width, places, 0));
    AllDrawnRead(width, places, 0);
  }

  // ----- what the writer's images read as -----

  lemma Differs(s: string, t: string, i: nat)
    requires i < |s| && i < |t| && s[i] != t[i]
    ensures Expect(s, t) == None
  {
  }

  lemma ColorNameReads(c: ColorSpace, rest: string)
    ensures ReadColorName(ColorName(c) + rest) == Some((c, rest))
  {
    var s := ColorName(c) + rest;
    Expected(ColorName(c), rest);
    match c
    case DeviceRGB =>
    case GrayScale => Differs(s, "/DeviceRGB\n", 7);
    case AdobeRGB =>
      Differs(s, "/DeviceRGB\n", 0);
      Differs(s, "/DeviceGray\n", 0);
  }

  lemma ColorReads(c: ColorSpace, rest: string)
    ensures ReadColor(ColorText(c) + rest) == Some((c, rest))
  {
    hide ColorName, ReadColorName;
    assert ColorText(c) + rest == "/ColorSpace " + (ColorName(c) + rest);
    hide ColorText;
    Expected("/ColorSpace ", ColorName(c) + rest);
    ColorNameReads(c, rest);
  }

  lemma FilterNameReads(c: Compression, rest: string)
    ensures ReadFilterName(FilterName(c) + rest) == Some((c, rest))
  {
    var s := FilterName(c) + rest;
    Expected(FilterName(c), rest);
    match c
    case Dct =>
    case Flate => Differs(s, "DCTDecode\n", 0);
    case Rle =>
      Differs(s, "DCTDecode\n", 0);
      Differs(s, "FlateDecode\n", 0);
  }

  lemma FilterReads(c: Compression, rest: string)
    ensures ReadFilter(FilterText(c) + rest) == Some((c, rest))
  {
    hide FilterName, ReadFilterName;
    assert FilterText(c) + rest == "/Filter /" + (FilterName(c) + rest);
    hide FilterText;
    Expected("/Filter /", FilterName(c) + rest);
    FilterNameReads(c, rest);
  }

  lemma StripNameReads(white: bool, rest: string)
    ensures ReadStripName(StripName(white) + rest) == Some((white, rest))
  {
    Expected(StripName(white), rest);
    if !white {
      Differs(StripName(white) + rest, "WhiteStrip\n", 0);
    }
  }

  lemma NameReads(white: bool, rest: string)
    ensures ReadName(NameText(white) + rest) == Some((white, rest))
  {
    hide StripName, ReadStripName;
    assert NameText(white) + rest == "/Name /" + (StripName(white) + rest);
    hide NameText;
    Expected("/Name /", StripName(white) + rest);
    StripNameReads(white, rest);
  }

  lemma HeadReads(width: nat, height: nat, color: ColorSpace, filter: Compression, s8: string)
    ensures ReadImageHead(StripHead(width, height, color, filter) + s8) == Some(((width, height, color, filter), s8))
  {
    hide Dec, ReadDec, Expect, ColorText, FilterText, ReadColor, ReadFilter;
    var s7 := FilterText(filter) + s8;
    var s6 := "\n" + s7;
    var s5 := Dec(height) + s6;
    var s4 := "/Height " + s5;
    var s3 := ColorText(color) + s4;
    var s2 := "\n" + s3;
    var s1 := Dec(width) + s2;
    assert StripHead(width, height, color, filter) + s8 == "<<\n/Width " + s1;
    Expected("<<\n/Width ", s1);
    DecReads(width, s2);
    Expected("\n", s3);
    ColorReads(color, s4);
    Expected("/Height ", s5);
    DecReads(height, s6);
    Expected("\n", s7);
    FilterReads(filter, s8);
  }

  lemma DataReads(white: bool, data: string, rest: string)
    ensures ReadImageData(StripData(white, data) + rest) == Some((white, data))
  {
    hide Dec, ReadDec, Expect, Taken, ReadName, NameText;
    var s5 := data + ("\nendstream\nendobj\n" + rest);
    var s4 := ">>\nstream\n" + s5;
    var s3 := NameText(white) + s4;
    var s2 := "\n/Type /XObject\n/BitsPerComponent 8\n" + s3;
    var s1 := Dec(|data|) + s2;
    DataText(white, data, rest);
    hide StripData;
    Expected("/Subtype /Image\n/Length ", s1);
    DecReads(|data|, s2);
    Expected("\n/Type /XObject\n/BitsPerComponent 8\n", s3);
    NameReads(white, s4);
    Expected(">>\nstream\n", s5);
    TakenBack(data, "\nendstream\nendobj\n", rest);
  }

  lemma DataText(white: bool, data: string, rest: string)
    ensures StripData(white, data) + rest
         == "/Subtype /Image\n/Length " + (Dec(|data|) + ("\n/Type /XObject\n/BitsPerComponent 8\n"
              + (NameText(white) + (">>\nstream\n" + (data + ("\nendstream\nendobj\n" + rest))))))
  {
    hide Dec, NameText;
    Regrouped("/Subtype /Image\n/Length ", Dec(|data|), "\n/Type /XObject\n/BitsPerComponent 8\n", NameText(white),
              ">>\nstream\n", data, "\nendstream\nendobj\n", rest);
  }

  lemma Grouped(a: string, b: string, c: string)
    ensures a + b + c == a + (b + c)
  {
  }

  lemma Regrouped(a: string, b: string, c: string, d: string, e: string, f: string, g: string, r: string)
    ensures a + b + c + d + e + f + g + r == a + (b + (c + (d + (e + (f + (g + r))))))
  {
    Grouped(a + b + c + d + e + f, g, r);
    Grouped(a + b + c + d + e, f, g + r);
    Grouped(a + b + c + d, e, f + (g + r));
    Grouped(a + b + c, d, e + (f + (g + r)));
    Grouped(a + b, c, d + (e + (f + (g + r))));
    Grouped(a, b, c + (d + (e + (f + (g + r)))));
  }

  /** A strip object reads back as an image of its size, colour space, filter, kind and data. */
  lemma ImageReads(width: nat, height: nat, color: ColorSpace, filter: Compression, white: bool, data: string,
                   rest: string)
    ensures ReadImage(StripText(width, height, color, filter, white, data) + rest)
         == Some(Image(width, height, color, filter, white, data))
  {
    hide StripHead, StripData, ReadImageHead, ReadImageData;
    var s8 := StripData(white, data) + rest;
    assert StripText(width, height, color, filter, white, data) + rest == StripHead(width, height, color, filter) + s8;
    HeadReads(width, height, color, filter, s8);
    DataReads(white, data, rest);
  }

  lemma ColorSpaceReads(profile: nat, rest: string)
    ensures ReadColorSpace(IccText(profile) + rest) == Some(profile)
  {
    hide Dec, ReadDec, Expect;
    var s2 := " 0 R]\nendobj\n" + rest;
    var s1 := Dec(profile) + s2;
    assert IccText(profile) + rest == "[/ICCBased " + s1;
    Expected("[/ICCBased ", s1);
    DecReads(profile, s2);
    Expected(" 0 R]\nendobj\n", rest);
  }

  /** The profile is the data and a line end. */
  lemma ProfileReads(data: string, rest: string)
    ensures ReadProfile(ProfileText(data) + rest) == Some(data + "\n")
  {
    hide Dec, ReadDec, Expect, Taken;
    EndsInLine(data, rest);
    var s3 := data + "\n" + ("endstream\nendobj\n" + rest);
    var s2 := "\n/Filter /FlateDecode\n>>\nstream\n" + s3;
    var s1 := Dec(|data| + 1) + s2;
    assert ProfileText(data) + rest == "<<\n/N 3\n/Alternate /DeviceRGB\n/Length " + s1;
    hide ProfileText;
    Expected("<<\n/N 3\n/Alternate /DeviceRGB\n/Length ", s1);
    DecReads(|data| + 1, s2);
    Expected("\n/Filter /FlateDecode\n>>\nstream\n", s3);
    TakenBack(data + "\n", "endstream\nendobj\n", rest);
  }

  lemma EndsInLine(data: string, rest: string)
    ensures data + ("\nendstream\nendobj\n" + rest) == data + "\n" + ("endstream\nendobj\n" + rest)
  {
    assert "\nendstream\nendobj\n" == "\n" + "endstream\nendobj\n";
  }
}
