/** The texts a PDF file is held together by: numerals, object headers and the cross-reference section
    (ISO 32000-1, sections 7.3 and 7.5). */
module PdfText {

  function Digit(d: nat): char
    requires d < 10
  {
    ['0', '1', '2', '3', '4', '5', '6', '7', '8', '9'][d]
  }

  /** Decimal notation. */
  function Dec(n: nat): (s: string)
    ensures |s| >= 1
  {
    if n < 10 then [Digit(n)] else Dec(n / 10) + [Digit(n % 10)]
  }

  /** `%ld`. */
  function DecInt(n: int): string {
    if n < 0 then "-" + Dec(-n) else Dec(n)
  }

  /** Filled up with zeros to a width. */
  function Padded(width: nat, s: string): (r: string)
    ensures |r| >= width && |r| >= |s|
  {
    if |s| < width then seq(width - |s|, _ => '0') + s else s
  }

  /** `%010ld`. */
  function Dec10(n: int): string {
    if n < 0 then "-" + Padded(9, Dec(-n)) else Padded(10, Dec(n))
  }

  function ObjText(n: nat): string {
    Dec(n) + " 0 obj\n"
  }

  // ----- the cross-reference section -----

  datatype Entry = Free | InUse(offset: int)

  datatype Subsection = Subsection(first: nat, entries: seq<Entry>)

  function EntryText(e: Entry): string {
    match e
    case Free => "0000000000 65535 f \n"
    case InUse(offset) => Dec10(offset) + " 00000 n \n"
  }

  function EntriesText(entries: seq<Entry>): string {
    if entries == [] then ""
    else EntriesText(entries[..|entries| - 1]) + EntryText(entries[|entries| - 1])
  }

  function SubsectionText(s: Subsection): string {
    Dec(s.first) + " " + Dec(|s.entries|) + "\n" + EntriesText(s.entries)
  }

  function SubsectionsText(subs: seq<Subsection>): string {
    if subs == [] then "" else SubsectionText(subs[0]) + SubsectionsText(subs[1..])
  }

  function SectionText(subs: seq<Subsection>): string {
    "xref\n" + SubsectionsText(subs)
  }

  function SizeText(size: nat): string {
    "/Size " + Dec(size) + "\n"
  }

  function TrailerEnd(start: int): string {
    "startxref\n" + DecInt(start) + "\n" + "%%EOF\n"
  }

  // ----- texts inside texts -----

  ghost predicate TextAt(file: string, at: nat, s: string) {
    at + |s| <= |file| && file[at..at + |s|] == s
  }

  lemma TextAtPrefix(earlier: string, file: string, at: nat, s: string)
    requires earlier <= file && TextAt(earlier, at, s)
    ensures TextAt(file, at, s)
  {
    assert file[at..at + |s|] == earlier[at..at + |s|];
  }

  lemma TextAtEnd(before: string, s: string)
    ensures TextAt(before + s, |before|, s)
  {
  }
}
