/** A reader of PDF files: it knows nothing but their text. It starts at the end, follows `startxref` to the
    cross-reference section, and looks objects up in it (ISO 32000-1, sections 7.5.4 and 7.5.5). */
module PdfReader {
  import opened Common
  import opened PdfText

  // ----- numerals -----

  predicate IsDigit(c: char) { '0' <= c <= '9' }

  predicate AllDigits(s: string) { forall i | 0 <= i < |s| :: IsDigit(s[i]) }

  /** How many digits a text begins with. */
  function Digits(s: string): (n: nat)
    ensures n <= |s|
  {
    if s == [] || !IsDigit(s[0]) then 0 else 1 + Digits(s[1..])
  }

  /** How many digits a text ends with. */
  function LastDigits(s: string): (n: nat)
    ensures n <= |s|
  {
    if s == [] || !IsDigit(s[|s| - 1]) then 0 else 1 + LastDigits(s[..|s| - 1])
  }

  /** The number a text denotes; characters that are no digits count as zeros. */
  function Value(s: string): nat {
    if s == [] then 0
    else 10 * Value(s[..|s| - 1]) + if IsDigit(s[|s| - 1]) then s[|s| - 1] as int - '0' as int else 0
  }

  /** A number, and what follows it. */
  function ReadDec(s: string): (r: Option<(nat, string)>)
    ensures r.Some? ==> |r.value.1| < |s|
  {
    if Digits(s) == 0 then None else Some((Value(s[..Digits(s)]), s[Digits(s)..]))
  }

  /** What follows an expected text. */
  function Expect(s: string, t: string): (r: Option<string>)
    ensures r.Some? ==> |r.value| == |s| - |t|
  {
    if t <= s then Some(s[|t|..]) else None
  }

  // ----- the cross-reference section -----

  /** An entry of twenty characters. */
  function ReadEntry(s: string): Option<Entry>
    requires |s| == 20
  {
    if AllDigits(s[..10]) && s[10] == ' ' && AllDigits(s[11..16]) && s[16] == ' ' && s[18..] == " \n" then
      if s[17] == 'n' then Some(InUse(Value(s[..10]))) else if s[17] == 'f' then Some(Free) else None
    else
      None
  }

  function ReadEntries(s: string, count: nat): (r: Option<(seq<Entry>, string)>)
    ensures r.Some? ==> |r.value.1| <= |s|
    decreases count
  {
    if count == 0 then Some(([], s))
    else if |s| < 20 then None
    else
      match ReadEntry(s[..20])
      case None => None
      case Some(e) =>
        match ReadEntries(s[20..], count - 1)
        case None => None
        case Some((entries, rest)) => Some(([e] + entries, rest))
  }

  /** `first count`, then as many entries. */
  function ReadSubsection(s: string): (r: Option<(Subsection, string)>)
    ensures r.Some? ==> |r.value.1| < |s|
  {
    match ReadDec(s)
    case None => None
    case Some((first, s1)) =>
      match Expect(s1, " ")
      case None => None
      case Some(s2) =>
        match ReadDec(s2)
        case None => None
        case Some((count, s3)) =>
          match Expect(s3, "\n")
          case None => None
          case Some(s4) =>
            match ReadEntries(s4, count)
            case None => None
            case Some((entries, rest)) => Some((Subsection(first, entries), rest))
  }

  function ReadSubsections(s: string): Option<(seq<Subsection>, string)>
    decreases |s|
  {
    if Digits(s) == 0 then Some(([], s))
    else
      match ReadSubsection(s)
      case None => None
      case Some((sub, s1)) =>
        match ReadSubsections(s1)
        case None => None
        case Some((subs, rest)) => Some(([sub] + subs, rest))
  }

  function ReadSection(s: string): Option<(seq<Subsection>, string)> {
    match Expect(s, "xref\n")
    case None => None
    case Some(s1) => ReadSubsections(s1)
  }

  // ----- the trailer -----

  function AfterLine(s: string): (r: string)
    ensures s != [] ==> |r| < |s|
  {
    if s == [] then [] else if s[0] == '\n' then s[1..] else AfterLine(s[1..])
  }

  function SkipComments(s: string): (r: string)
    ensures |r| <= |s|
    decreases |s|
  {
    if s == [] || s[0] != '%' then s else SkipComments(AfterLine(s))
  }

  datatype Trailer = Trailer(size: nat, root: nat)

  /** The trailer dictionary: its size and the number of the catalog. */
  function ReadTrailer(s: string): Option<Trailer> {
    match Expect(SkipComments(s), "trailer\n<<\n/Size ")
    case None => None
    case Some(s1) =>
      match ReadDec(s1)
      case None => None
      case Some((size, s2)) =>
        match Expect(s2, "\n/Root ")
        case None => None
        case Some(s3) =>
          match ReadDec(s3)
          case None => None
          case Some((root, s4)) => if Expect(s4, " 0 R\n>>\n").Some? then Some(Trailer(size, root)) else None
  }

  predicate EndsWith(s: string, t: string) { |t| <= |s| && s[|s| - |t|..] == t }

  /** Where the file says that its cross-reference section starts. */
  function ReadStart(file: string): Option<nat> {
    if !EndsWith(file, "\n%%EOF\n") then None
    else
      var s := file[..|file| - 7];
      var k := LastDigits(s);
      if k > 0 && EndsWith(s[..|s| - k], "startxref\n") then Some(Value(s[|s| - k..])) else None
  }

  datatype Xref = Xref(start: nat, subs: seq<Subsection>, trailer: Trailer)

  /** The cross-reference section and the trailer of a file. */
  function ReadXref(file: string): Option<Xref> {
    match ReadStart(file)
    case None => None
    case Some(start) =>
      if start > |file| then None
      else
        match ReadSection(file[start..])
        case None => None
        case Some((subs, rest)) =>
          match ReadTrailer(rest)
          case None => None
          case Some(trailer) => Some(Xref(start, subs, trailer))
  }

  // ----- objects -----

  datatype Found = At(offset: int) | FreeObject | Missing

  /** The entry for object n: the first subsection that covers it. */
  function Lookup(subs: seq<Subsection>, n: nat): Found {
    if subs == [] then Missing
    else if subs[0].first <= n < subs[0].first + |subs[0].entries| then
      match subs[0].entries[n - subs[0].first]
      case Free => FreeObject
      case InUse(offset) => At(offset)
    else Lookup(subs[1..], n)
  }

  /** What follows the header of object n, where the header stands at `offset`. */
  function ObjectAt(file: string, offset: int, n: nat): Option<string> {
    if !(0 <= offset <= |file|) then None
    else
      match ReadDec(file[offset..])
      case None => None
      case Some((m, rest)) => if m == n then Expect(rest, " 0 obj\n") else None
  }

  function ReadObject(file: string, subs: seq<Subsection>, n: nat): Option<string> {
    match Lookup(subs, n)
    case At(offset) => ObjectAt(file, offset, n)
    case _ => None
  }

  /** The object a reader finds under number n begins with this body. */
  predicate Holds(file: string, subs: seq<Subsection>, n: nat, body: string) {
    var r := ReadObject(file, subs, n);
    r.Some? && body <= r.value
  }

  /** Everything a reader may rely on: the file names the start of its cross-reference section; the section
      has an entry for every object 1..size-1 and no other; each entry leads to that object, and behind it
      stands its body; /Size is the highest object number plus one, and /Root is object 1. */
  ghost predicate ReadsAs(file: string, start: nat, bodies: seq<string>) {
    var r := ReadXref(file);
    && r.Some? && r.value.start == start
    && r.value.trailer == Trailer(|bodies| + 1, 1)
    && Lookup(r.value.subs, 0) == FreeObject
    && (forall i | 0 <= i < |bodies| :: Holds(file, r.value.subs, i + 1, bodies[i]))
    && (forall n: nat | |bodies| < n :: Lookup(r.value.subs, n) == Missing)
  }

  // ----- what the writer's numerals read as -----

  lemma {:induction false} DecMeans(n: nat)
    ensures AllDigits(Dec(n)) && Value(Dec(n)) == n
  {
    if n >= 10 {
      DecMeans(n / 10);
      assert Dec(n)[..|Dec(n)| - 1] == Dec(n / 10);
    } else {
      assert Dec(n)[..0] == [];
    }
  }

  lemma {:induction false} ZerosMean(n: nat, d: string)
    requires AllDigits(d)
    ensures var s := seq(n, _ => '0') + d; AllDigits(s) && Value(s) == Value(d)
  {
    var s := seq(n, _ => '0') + d;
    if d != [] {
      ZerosMean(n, d[..|d| - 1]);
      assert s[..|s| - 1] == seq(n, _ => '0') + d[..|d| - 1];
    } else if n > 0 {
      ZerosMean(n - 1, d);
      assert s[..|s| - 1] == seq(n - 1, _ => '0') + d;
    }
  }

  lemma PaddedMeans(width: nat, n: nat)
    ensures AllDigits(Padded(width, Dec(n))) && Value(Padded(width, Dec(n))) == n
  {
    hide Dec, AllDigits, Value;
    DecMeans(n);
    if |Dec(n)| < width {
      ZerosMean(width - |Dec(n)|, Dec(n));
    }
  }

  lemma {:induction false} DigitsOf(d: string, rest: string)
    requires AllDigits(d) && (rest == [] || !IsDigit(rest[0]))
    ensures Digits(d + rest) == |d|
  {
    if d == [] {
      assert d + rest == rest;
    } else {
      DigitsOf(d[1..], rest);
      assert (d + rest)[1..] == d[1..] + rest;
    }
  }

  lemma {:induction false} LastDigitsOf(before: string, d: string)
    requires AllDigits(d) && (before == [] || !IsDigit(before[|before| - 1]))
    ensures LastDigits(before + d) == |d|
  {
    if d == [] {
      assert before + d == before;
    } else {
      LastDigitsOf(before, d[..|d| - 1]);
      assert (before + d)[..|before + d| - 1] == before + d[..|d| - 1];
    }
  }

  /** A numeral reads back as its number, whatever follows. */
  lemma DecReads(n: nat, rest: string)
    requires rest == [] || !IsDigit(rest[0])
    ensures ReadDec(Dec(n) + rest) == Some((n, rest))
  {
    DecMeans(n);
    DigitsOf(Dec(n), rest);
    assert (Dec(n) + rest)[..|Dec(n)|] == Dec(n) && (Dec(n) + rest)[|Dec(n)|..] == rest;
  }

  lemma Expected(t: string, rest: string)
    ensures Expect(t + rest, t) == Some(rest)
  {
  }

  /** The digits of a number below 10^k. */
  lemma {:induction false} DecLength(n: nat, k: nat)
    requires k >= 1 && n < Power10(k)
    ensures |Dec(n)| <= k
  {
    if n >= 10 {
      assert n < 10 * Power10(k - 1);
      DecLength(n / 10, k - 1);
    }
  }

  function Power10(k: nat): nat {
    if k == 0 then 1 else 10 * Power10(k - 1)
  }

  // ----- what the writer's cross-reference section reads as -----

  /** An offset of at most ten digits. */
  predicate TenDigits(e: Entry) {
    e.InUse? ==> 0 <= e.offset < Power10(10)
  }

  lemma OffsetReads(d: string)
    requires |d| == 10 && AllDigits(d)
    ensures ReadEntry(d + " 00000 n \n") == Some(InUse(Value(d)))
  {
    hide Value, AllDigits;
    var t, s := " 00000 n \n", d + " 00000 n \n";
    assert s[..10] == d;
    assert s[10] == t[0] == ' ' && s[16] == t[6] == ' ' && s[17] == t[7] == 'n';
    assert s[11..16] == t[1..6] == "00000" && s[18..] == t[8..] == " \n";
    assert AllDigits("00000") by { FiveZeros(); }
  }

  lemma FiveZeros()
    ensures AllDigits("00000")
  {
  }

  lemma FreeReads()
    ensures ReadEntry("0000000000 65535 f \n") == Some(Free)
  {
  }

  /** A reader indexes entries by their fixed size of twenty bytes. */
  lemma EntryReads(e: Entry)
    requires TenDigits(e)
    ensures |EntryText(e)| == 20 && ReadEntry(EntryText(e)) == Some(e)
  {
    hide Dec, ReadEntry, AllDigits, Value;
    if e.InUse? {
      DecLength(e.offset, 10);
      PaddedMeans(10, e.offset);
      OffsetReads(Dec10(e.offset));
    } else {
      FreeReads();
    }
  }

  lemma {:induction false} EntriesCons(e: Entry, more: seq<Entry>)
    ensures EntriesText([e] + more) == EntryText(e) + EntriesText(more)
  {
    hide EntryText;
    var all := [e] + more;
    if more == [] {
      assert all == [e] && all[..0] == [];
      assert EntriesText(all) == "" + EntryText(e);
    } else {
      EntriesCons(e, more[..|more| - 1]);
      assert all[..|all| - 1] == [e] + more[..|more| - 1];
    }
  }

  lemma {:induction false} EntriesRead(entries: seq<Entry>, rest: string)
    requires forall e | e in entries :: TenDigits(e)
    ensures ReadEntries(EntriesText(entries) + rest, |entries|) == Some((entries, rest))
  {
    hide EntryText, ReadEntry, TenDigits;
    if entries == [] {
      assert EntriesText(entries) + rest == rest;
    } else {
      var e, more := entries[0], entries[1..];
      assert entries == [e] + more;
      EntryReads(e);
      EntriesRead(more, rest);
      EntriesCons(e, more);
      var s := EntriesText(entries) + rest;
      assert s == EntryText(e) + (EntriesText(more) + rest);
      assert s[..20] == EntryText(e) && s[20..] == EntriesText(more) + rest;
    }
  }

  lemma SubsectionReads(sub: Subsection, rest: string)
    requires forall e | e in sub.entries :: TenDigits(e)
    ensures ReadSubsection(SubsectionText(sub) + rest) == Some((sub, rest))
  {
    hide Dec, EntriesText, ReadEntries, ReadDec, TenDigits;
    var s4 := EntriesText(sub.entries) + rest;
    var s3 := "\n" + s4;
    var s2 := Dec(|sub.entries|) + s3;
    var s1 := " " + s2;
    assert SubsectionText(sub) + rest == Dec(sub.first) + s1;
    DecReads(sub.first, s1);
    Expected(" ", s2);
    DecReads(|sub.entries|, s3);
    Expected("\n", s4);
    EntriesRead(sub.entries, rest);
  }

  lemma {:induction false} SubsectionsRead(subs: seq<Subsection>, rest: string)
    requires forall sub, e | sub in subs && e in sub.entries :: TenDigits(e)
    requires Digits(rest) == 0
    ensures ReadSubsections(SubsectionsText(subs) + rest) == Some((subs, rest))
  {
    hide ReadSubsection, SubsectionText, TenDigits, Digits;
    if subs == [] {
      assert SubsectionsText(subs) + rest == rest;
    } else {
      var sub, tail := subs[0], SubsectionsText(subs[1..]) + rest;
      SubsectionsRead(subs[1..], rest);
      assert SubsectionsText(subs) + rest == SubsectionText(sub) + tail;
      SubsectionReads(sub, tail);
      BeginsWithDigit(sub, tail);
      OneMoreRead(SubsectionText(sub) + tail, sub, tail, subs[1..], rest);
      assert [sub] + subs[1..] == subs;
    }
  }

  lemma OneMoreRead(s: string, sub: Subsection, tail: string, subs: seq<Subsection>, rest: string)
    requires Digits(s) > 0 && ReadSubsection(s) == Some((sub, tail)) && ReadSubsections(tail) == Some((subs, rest))
    ensures ReadSubsections(s) == Some(([sub] + subs, rest))
  {
    hide Digits, ReadSubsection;
  }

  lemma BeginsWithDigit(sub: Subsection, rest: string)
    ensures Digits(SubsectionText(sub) + rest) > 0
  {
    DecMeans(sub.first);
  }

  /** A cross-reference section reads back as its subsections. */
  lemma SectionReads(subs: seq<Subsection>, rest: string)
    requires forall sub, e | sub in subs && e in sub.entries :: TenDigits(e)
    requires Digits(rest) == 0
    ensures ReadSection(SectionText(subs) + rest) == Some((subs, rest))
  {
    hide SubsectionsText, ReadSubsections, TenDigits;
    assert SectionText(subs) + rest == "xref\n" + (SubsectionsText(subs) + rest);
    Expected("xref\n", SubsectionsText(subs) + rest);
    SubsectionsRead(subs, rest);
  }

  // ----- what the end of the file reads as -----

  lemma EndRead(head: string, d: string)
    requires AllDigits(d) && d != "" && head != "" && !IsDigit(head[|head| - 1])
    ensures ReadStart(head + d + "\n%%EOF\n") == if EndsWith(head, "startxref\n") then Some(Value(d)) else None
  {
    hide EndsWith, Value;
    var file := head + d + "\n%%EOF\n";
    LastDigitsOf(head, d);
    assert EndsWith(file, "\n%%EOF\n") && file[..|file| - 7] == head + d by { EndOf(head + d, "\n%%EOF\n"); }
    assert (head + d)[..|head|] == head && (head + d)[|head|..] == d;
  }

  lemma EndOf(before: string, t: string)
    ensures EndsWith(before + t, t) && (before + t)[..|before|] == before
  {
  }

  lemma TrailerEndMeans(before: string, start: int)
    ensures start >= 0 ==> before + TrailerEnd(start) == before + "startxref\n" + Dec(start) + "\n%%EOF\n"
    ensures start < 0 ==> before + TrailerEnd(start) == before + "startxref\n" + "-" + Dec(-start) + "\n%%EOF\n"
  {
    hide Dec;
    assert "\n" + "%%EOF\n" == "\n%%EOF\n";
  }

  /** The file names the start of its section, unless the number is negative. */
  lemma StartReads(before: string, start: int)
    ensures ReadStart(before + TrailerEnd(start)) == if start >= 0 then Some(start) else None
  {
    hide *;
    TrailerEndMeans(before, start);
    var head := before + "startxref\n";
    DecMeans(if start >= 0 then start else -start);
    if start >= 0 {
      EndOf(before, "startxref\n");
      NewlineEnds(before);
      EndRead(head, Dec(start));
    } else {
      MinusEnds(head);
      EndRead(head + "-", Dec(-start));
    }
  }

  lemma NewlineEnds(before: string)
    ensures var s := before + "startxref\n"; s != "" && !IsDigit(s[|s| - 1])
  {
    var s := before + "startxref\n";
    assert s[|s| - 1] == "startxref\n"[9] == '\n';
  }

  lemma MinusEnds(before: string)
    ensures var s := before + "-"; s != "" && !IsDigit(s[|s| - 1]) && !EndsWith(s, "startxref\n")
  {
    var s := before + "-";
    assert s[|s| - 1] == '-' && "startxref\n"[9] == '\n';
    assert |s| >= 10 ==> s[|s| - 10..][9] == s[|s| - 1];
  }

  lemma {:induction false} AfterLineOf(line: string, rest: string)
    requires '\n' !in line
    ensures AfterLine(line + "\n" + rest) == rest
  {
    var s := line + "\n" + rest;
    if line == [] {
      assert s[1..] == rest;
    } else {
      AfterLineOf(line[1..], rest);
      assert s[1..] == line[1..] + "\n" + rest;
    }
  }

  lemma TrailerReads(comment: string, trailer: Trailer, rest: string)
    requires comment != "" && comment[0] == '%' && '\n' !in comment
    ensures ReadTrailer(comment + "\n" + ("trailer\n<<\n/Size " + (Dec(trailer.size) + ("\n/Root "
              + (Dec(trailer.root) + (" 0 R\n>>\n" + rest)))))) == Some(trailer)
  {
    hide Dec, AfterLine, ReadDec;
    var s4 := " 0 R\n>>\n" + rest;
    var s3 := Dec(trailer.root) + s4;
    var s2 := "\n/Root " + s3;
    var s1 := Dec(trailer.size) + s2;
    var s0 := "trailer\n<<\n/Size " + s1;
    var s := comment + "\n" + s0;
    AfterLineOf(comment, s0);
    assert s[0] == '%' && s0[0] == 't' && SkipComments(s0) == s0;
    assert SkipComments(s) == s0;
    Expected("trailer\n<<\n/Size ", s1);
    DecReads(trailer.size, s2);
    Expected("\n/Root ", s3);
    DecReads(trailer.root, s4);
    Expected(" 0 R\n>>\n", rest);
  }

  // ----- what the writer's objects read as -----

  lemma ObjectReads(file: string, at: nat, n: nat, body: string)
    requires TextAt(file, at, ObjText(n) + body)
    ensures var r := ObjectAt(file, at, n); r.Some? && body <= r.value
  {
    hide Dec, ReadDec;
    var text := ObjText(n) + body;
    var more := file[at + |text|..];
    var tail := " 0 obj\n" + (body + more);
    assert file[at..] == file[at..at + |text|] + more;
    assert file[at..] == Dec(n) + tail;
    DecReads(n, tail);
    Expected(" 0 obj\n", body + more);
  }
}
