/** The texts a PCLm file is made of, and the placement of its strips. */
module PclmTexts {
  import opened PdfText

  datatype ColorSpace = DeviceRGB | AdobeRGB | GrayScale
  datatype Compression = Dct | Flate | Rle

  datatype Resolution = Res300 | Res600 | Res1200
  {
    function Dpi(): nat {
      match this
      case Res300 => 300
      case Res600 => 600
      case Res1200 => 1200
    }
  }

  const CATALOG_OBJ_NUMBER: nat := 1
  const PAGES_OBJ_NUMBER: nat := 2

  // ----- texts of the file -----

  function HeaderText(): string { "%PDF-1.7\n%PCLm 1.0\n" }
  function CommentText(what: string): string { "%============= PCLm: " + what + "\n" }
  function CatalogText(): string {
    "<<\n/Type /Catalog\n/Pages " + Dec(PAGES_OBJ_NUMBER) + " 0 R\n>>\nendobj\n"
  }

  function KidText(kid: nat): string { Dec(kid) + " 0 R " }

  function KidsText(kids: seq<nat>): string {
    if kids == [] then "" else KidsText(kids[..|kids| - 1]) + KidText(kids[|kids| - 1])
  }

  function PageTreeText(kids: seq<nat>): string {
    "<<\n/Count " + Dec(|kids|) + "\n/Kids [ " + KidsText(kids) + "]\n/Type /Pages\n>>\nendobj\n"
  }

  function TrailerStart(): string { CommentText("File Trailer") + "trailer\n<<\n" }
  function RootText(): string { "/Root " + Dec(CATALOG_OBJ_NUMBER) + " 0 R\n>>\n" }

  function IccText(profile: nat): string { "[/ICCBased " + Dec(profile) + " 0 R]\nendobj\n" }
  function ProfileText(data: string): string {
    "<<\n/N 3\n/Alternate /DeviceRGB\n/Length " + Dec(|data| + 1) + "\n/Filter /FlateDecode\n>>\nstream\n"
    + data + "\nendstream\nendobj\n"
  }

  function ColorName(c: ColorSpace): string {
    match c
    case DeviceRGB => "/DeviceRGB\n"
    case AdobeRGB => "5 0 R\n"
    case GrayScale => "/DeviceGray\n"
  }

  function ColorText(c: ColorSpace): string { "/ColorSpace " + ColorName(c) }

  function FilterName(c: Compression): string {
    match c
    case Dct => "DCTDecode\n"
    case Flate => "FlateDecode\n"
    case Rle => "RunLengthDecode\n"
  }

  function FilterText(c: Compression): string { "/Filter /" + FilterName(c) }

  function KindText(c: Compression): string {
    match c
    case Dct => "jpeg Image "
    case Flate => "zlib Image "
    case Rle => "RLE Image "
  }

  function StripComment(c: Compression): string { CommentText("FileBody: Strip Stream: " + KindText(c)) }

  function StripName(white: bool): string { if white then "WhiteStrip\n" else "ColorStrip\n" }

  function NameText(white: bool): string { "/Name /" + StripName(white) }

  function StripHead(width: nat, height: nat, color: ColorSpace, filter: Compression): string {
    "<<\n/Width " + Dec(width) + "\n" + ColorText(color) + "/Height " + Dec(height) + "\n" + FilterText(filter)
  }

  function StripData(white: bool, data: string): string {
    "/Subtype /Image\n/Length " + Dec(|data|) + "\n/Type /XObject\n/BitsPerComponent 8\n" + NameText(white)
    + ">>\nstream\n" + data + "\nendstream\nendobj\n"
  }

  function StripText(width: nat, height: nat, color: ColorSpace, filter: Compression, white: bool, data: string): string {
    StripHead(width, height, color, filter) + StripData(white, data)
  }

  function TransformText(): string {
    var t := "q /image Do Q\n";
    "<<\n/Length " + Dec(|t|) + "\n>>\nstream\n" + t + "endstream\nendobj\n"
  }

  function PageHead(): string {
    "<<\n/Type /Page\n/Parent " + Dec(PAGES_OBJ_NUMBER) + " 0 R\n/Resources <<\n/XObject <<\n"
  }

  /** The page's image resources: /ImageK names object refs[K]. */
  function ImageRefText(k: nat, obj: nat): string { "/Image" + Dec(k) + " " + Dec(obj) + " 0 R\n" }
  function ImageRefsText(refs: seq<nat>): string {
    if refs == [] then ""
    else ImageRefsText(refs[..|refs| - 1]) + ImageRefText(|refs| - 1, refs[|refs| - 1])
  }

  function ContentsText(obj: nat): string { "/Contents [ " + Dec(obj) + " 0 R ]\n" }
  function MediaBoxText(w: nat, h: nat): string {
    ">>\n>>\n/MediaBox [ 0 0 " + Dec(w) + " " + Dec(h) + " ]\n"
  }
  function PageTail(): string { ">>\nendobj\n" }

  // ----- the content stream: where each strip goes -----

  /** A strip `height` lines high whose lower edge is at y. */
  datatype Place = Place(height: int, y: int)

  function MatrixFields(): string { "width, skewX, skewY, " + "height, xAnchor, yAnchor" }

  function MatrixLine(): string { "%Image Transformation Matrix: " + MatrixFields() }

  function MatrixComment(): string { MatrixLine() + "\n" }

  function PlaceText(width: nat, k: nat, p: Place): string {
    "/P <</MCID 0>> BDC q\n" + MatrixComment() + Dec(width) + " 0 0 " + DecInt(p.height) + " 0 " + DecInt(p.y)
    + " cm\n/Image" + Dec(k) + " Do Q\n"
  }

  /** Millionths with the six decimals of `%f`. */
  function SixDecimals(n: nat): string { "0." + Padded(6, Dec(n)) }

  /** Points to the dot, in both directions. */
  function ScaleText(r: Resolution): string {
    var n := 72_000_000 / r.Dpi();
    SixDecimals(n) + " 0 0 " + SixDecimals(n) + " 0 0 cm\n"
  }

  function ContentText(r: Resolution, width: nat, places: seq<Place>): string {
    if places == [] then ScaleText(r)
    else ContentText(r, width, places[..|places| - 1]) + PlaceText(width, |places| - 1, places[|places| - 1])
  }

  function StreamText(content: string): string {
    "<<\n/Length " + Dec(|content|) + "\n>>\nstream\n" + content + "endstream\nendobj\n"
  }
}
