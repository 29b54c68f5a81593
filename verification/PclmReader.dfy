/** A reader of PCLm files: from the trailer to the catalog, to the page tree, and to what a page names. */
module PclmReader {
  import opened Common
  import opened PdfText
  import opened PdfReader
  import opened PclmTexts
  import opened PclmTrailer

  /** The number of the page tree. */
  function ReadCatalog(s: string): Option<nat> {
    match Expect(s, "<<\n/Type /Catalog\n/Pages ")
    case None => None
    case Some(s1) =>
      match ReadDec(s1)
      case None => None
      case Some((n, s2)) => if Expect(s2, " 0 R\n>>\nendobj\n").Some? then Some(n) else None
  }

  /** References one after another. */
  function ReadKids(s: string): Option<(seq<nat>, string)>
    decreases |s|
  {
    if Digits(s) == 0 then Some(([], s))
    else
      match ReadDec(s)
      case None => None
      case Some((kid, s1)) =>
        match Expect(s1, " 0 R ")
        case None => None
        case Some(s2) =>
          match ReadKids(s2)
          case None => None
          case Some((kids, rest)) => Some(([kid] + kids, rest))
  }

  /** The numbers of the pages. */
  function ReadPageTree(s: string): Option<seq<nat>> {
    match Expect(s, "<<\n/Count ")
    case None => None
    case Some(s1) =>
      match ReadDec(s1)
      case None => None
      case Some((count, s2)) =>
        match Expect(s2, "\n/Kids [ ")
        case None => None
        case Some(s3) =>
          match ReadKids(s3)
          case None => None
          case Some((kids, s4)) =>
            if Expect(s4, "]\n/Type /Pages\n>>\nendobj\n").Some? && |kids| == count then Some(kids) else None
  }

  /** `/Image0`, `/Image1` and so on, each with its object. */
  function ReadImages(s: string, k: nat): Option<(seq<nat>, string)>
    decreases |s|
  {
    match Expect(s, "/Image")
    case None => Some(([], s))
    case Some(s1) =>
      match ReadDec(s1)
      case None => None
      case Some((index, s2)) =>
        match Expect(s2, " ")
        case None => None
        case Some(s3) =>
          match ReadDec(s3)
          case None => None
          case Some((obj, s4)) =>
            match Expect(s4, " 0 R\n")
            case None => None
            case Some(s5) =>
              match ReadImages(s5, k + 1)
              case None => None
              case Some((objs, rest)) => if index == k then Some(([obj] + objs, rest)) else None
  }

  datatype PageRead = PageRead(parent: nat, images: seq<nat>, width: nat, height: nat, contents: nat)

  /** The page tree that a page names as its parent. */
  function ReadParent(s: string): Option<(nat, string)> {
    match Expect(s, "<<\n/Type /Page\n/Parent ")
    case None => None
    case Some(s1) =>
      match ReadDec(s1)
      case None => None
      case Some((parent, s2)) =>
        match Expect(s2, " 0 R\n/Resources <<\n/XObject <<\n")
        case None => None
        case Some(s3) => Some((parent, s3))
  }

  /** What a page object says: its parent, its images, its size and its contents. */
  function ReadPage(s: string): Option<PageRead> {
    match ReadParent(s)
    case None => None
    case Some((parent, s1)) =>
      match ReadImages(s1, 0)
      case None => None
      case Some((images, s2)) => ReadPageEnd(s2, parent, images)
  }

  function ReadMediaBox(s: string): Option<((nat, nat), string)> {
    match Expect(s, ">>\n>>\n/MediaBox [ 0 0 ")
    case None => None
    case Some(s1) =>
      match ReadDec(s1)
      case None => None
      case Some((width, s2)) =>
        match Expect(s2, " ")
        case None => None
        case Some(s3) =>
          match ReadDec(s3)
          case None => None
          case Some((height, s4)) =>
            match Expect(s4, " ]\n")
            case None => None
            case Some(s5) => Some(((width, height), s5))
  }

  function ReadContents(s: string): Option<nat> {
    match Expect(s, "/Contents [ ")
    case None => None
    case Some(s1) =>
      match ReadDec(s1)
      case None => None
      case Some((contents, s2)) => if Expect(s2, " 0 R ]\n>>\nendobj\n").Some? then Some(contents) else None
  }

  function ReadPageEnd(s: string, parent: nat, images: seq<nat>): Option<PageRead> {
    match ReadMediaBox(s)
    case None => None
    case Some((size, s1)) =>
      match ReadContents(s1)
      case None => None
      case Some(contents) => Some(PageRead(parent, images, size.0, size.1, contents))
  }

  /** The page numbers a reader of the file finds, starting at its end. */
  function ReadPages(file: string): Option<seq<nat>> {
    match ReadXref(file)
    case None => None
    case Some(x) =>
      match ReadObject(file, x.subs, x.trailer.root)
      case None => None
      case Some(catalog) =>
        match ReadCatalog(catalog)
        case None => None
        case Some(tree) =>
          match ReadObject(file, x.subs, tree)
          case None => None
          case Some(pages) => ReadPageTree(pages)
  }

  // ----- what the writer's objects read as -----

  lemma CatalogReads(rest: string)
    ensures ReadCatalog(CatalogText() + rest) == Some(PAGES_OBJ_NUMBER)
  {
    var s2 := " 0 R\n>>\nendobj\n" + rest;
    DecReads(PAGES_OBJ_NUMBER, s2);
    assert CatalogText() + rest == "<<\n/Type /Catalog\n/Pages " + (Dec(PAGES_OBJ_NUMBER) + s2);
    hide Dec, ReadDec, CatalogText;
    Expected("<<\n/Type /Catalog\n/Pages ", Dec(PAGES_OBJ_NUMBER) + s2);
    Expected(" 0 R\n>>\nendobj\n", rest);
  }

  lemma {:induction false} KidsCons(kid: nat, kids: seq<nat>)
    ensures KidsText([kid] + kids) == KidText(kid) + KidsText(kids)
  {
    hide KidText;
    if kids == [] {
      assert [kid] + kids == [kid] && [kid][..0] == [];
      assert KidsText([kid]) == "" + KidText(kid);
    } else {
      var front, last := kids[..|kids| - 1], kids[|kids| - 1];
      KidsCons(kid, front);
      assert ([kid] + kids)[..|kids|] == [kid] + front;
    }
  }

  lemma {:induction false} KidsRead(kids: seq<nat>, rest: string)
    requires Digits(rest) == 0
    ensures ReadKids(KidsText(kids) + rest) == Some((kids, rest))
  {
    hide Dec, ReadDec, KidsText, Digits;
    if kids == [] {
      NoKids();
      assert "" + rest == rest;
    } else {
      var s2 := KidsText(kids[1..]) + rest;
      var s1 := " 0 R " + s2;
      KidsRead(kids[1..], rest);
      assert kids == [kids[0]] + kids[1..];
      KidsCons(kids[0], kids[1..]);
      assert KidsText(kids) + rest == Dec(kids[0]) + s1;
      DecReads(kids[0], s1);
      DecBegins(kids[0], s1);
      Expected(" 0 R ", s2);
    }
  }

  lemma NoKids()
    ensures KidsText([]) == ""
  {
  }

  lemma DecBegins(n: nat, rest: string)
    ensures Digits(Dec(n) + rest) > 0
  {
    DecMeans(n);
  }

  lemma PageTreeReads(kids: seq<nat>, rest: string)
    ensures ReadPageTree(PageTreeText(kids) + rest) == Some(kids)
  {
    hide Dec, ReadDec, KidsText, ReadKids;
    var end := "]\n/Type /Pages\n>>\nendobj\n" + rest;
    var s3 := KidsText(kids) + end;
    var s2 := "\n/Kids [ " + s3;
    var s1 := Dec(|kids|) + s2;
    assert PageTreeText(kids) + rest == "<<\n/Count " + s1;
    Expected("<<\n/Count ", s1);
    DecReads(|kids|, s2);
    Expected("\n/Kids [ ", s3);
    KidsRead(kids, end);
    Expected("]\n/Type /Pages\n>>\nendobj\n", rest);
  }

  /** The image resources, written from the front. */
  function ImagesFrom(refs: seq<nat>, k: nat): string {
    if refs == [] then "" else ImageRefText(k, refs[0]) + ImagesFrom(refs[1..], k + 1)
  }

  lemma {:induction false} ImagesSnoc(refs: seq<nat>, k: nat, obj: nat)
    ensures ImagesFrom(refs + [obj], k) == ImagesFrom(refs, k) + ImageRefText(k + |refs|, obj)
  {
    hide ImageRefText;
    if refs == [] {
      assert refs + [obj] == [obj] && [obj][1..] == [];
      assert ImagesFrom([obj], k) == ImageRefText(k, obj) + "";
    } else {
      ImagesSnoc(refs[1..], k + 1, obj);
      assert (refs + [obj])[1..] == refs[1..] + [obj];
    }
  }

  lemma {:induction false} ImagesMean(refs: seq<nat>)
    ensures ImageRefsText(refs) == ImagesFrom(refs, 0)
  {
    hide ImageRefText;
    if refs != [] {
      var front, last := refs[..|refs| - 1], refs[|refs| - 1];
      ImagesMean(front);
      ImagesSnoc(front, 0, last);
      assert refs == front + [last];
    }
  }

  lemma {:induction false} ImagesRead(refs: seq<nat>, k: nat, rest: string)
    requires Expect(rest, "/Image") == None
    ensures ReadImages(ImagesFrom(refs, k) + rest, k) == Some((refs, rest))
  {
    hide Dec, ReadDec, Expect;
    if refs == [] {
      assert ImagesFrom(refs, k) + rest == rest;
    } else {
      var s5 := ImagesFrom(refs[1..], k + 1) + rest;
      ImagesRead(refs[1..], k + 1, rest);
      assert ImagesFrom(refs, k) + rest == ImageRefText(k, refs[0]) + s5;
      ResourceReads(k, refs[0], refs[1..], rest, s5);
      assert [refs[0]] + refs[1..] == refs;
    }
  }

  lemma ResourceReads(k: nat, obj: nat, more: seq<nat>, rest: string, s5: string)
    requires ReadImages(s5, k + 1) == Some((more, rest))
    ensures ReadImages(ImageRefText(k, obj) + s5, k) == Some(([obj] + more, rest))
  {
    hide Dec, ReadDec, Expect;
    var s4 := " 0 R\n" + s5;
    var s3 := Dec(obj) + s4;
    var s2 := " " + s3;
    var s1 := Dec(k) + s2;
    assert ImageRefText(k, obj) + s5 == "/Image" + s1;
    Expected("/Image", s1);
    DecReads(k, s2);
    Expected(" ", s3);
    DecReads(obj, s4);
    Expected(" 0 R\n", s5);
  }

  lemma MediaBoxReads(w: nat, h: nat, s5: string)
    ensures ReadMediaBox(MediaBoxText(w, h) + s5) == Some(((w, h), s5))
  {
    hide Dec, ReadDec, Expect;
    var s4 := " ]\n" + s5;
    var s3 := Dec(h) + s4;
    var s2 := " " + s3;
    var s1 := Dec(w) + s2;
    assert MediaBoxText(w, h) + s5 == ">>\n>>\n/MediaBox [ 0 0 " + s1;
    Expected(">>\n>>\n/MediaBox [ 0 0 ", s1);
    DecReads(w, s2);
    Expected(" ", s3);
    DecReads(h, s4);
    Expected(" ]\n", s5);
  }

  lemma ContentsReads(contents: nat, rest: string)
    ensures ReadContents(ContentsText(contents) + (PageTail() + rest)) == Some(contents)
  {
    hide Dec, ReadDec, Expect;
    var s2 := " 0 R ]\n>>\nendobj\n" + rest;
    var s1 := Dec(contents) + s2;
    assert ContentsText(contents) + (PageTail() + rest) == "/Contents [ " + s1;
    Expected("/Contents [ ", s1);
    DecReads(contents, s2);
    Expected(" 0 R ]\n>>\nendobj\n", rest);
  }

  lemma ParentReads(s3: string)
    ensures ReadParent(PageHead() + s3) == Some((2, s3))
  {
    hide Dec, ReadDec, Expect, PageHead;
    var s2 := " 0 R\n/Resources <<\n/XObject <<\n" + s3;
    var s1 := Dec(2) + s2;
    ParentStands(s3);
    Expected("<<\n/Type /Page\n/Parent ", s1);
    DecReads(2, s2);
    Expected(" 0 R\n/Resources <<\n/XObject <<\n", s3);
  }

  lemma ParentStands(s3: string)
    ensures PageHead() + s3 == "<<\n/Type /Page\n/Parent " + (Dec(2) + (" 0 R\n/Resources <<\n/XObject <<\n" + s3))
  {
    assert PAGES_OBJ_NUMBER == 2;
    hide Dec;
  }

  lemma PageEndReads(parent: nat, images: seq<nat>, w: nat, h: nat, contents: nat, rest: string)
    ensures ReadPageEnd(MediaBoxText(w, h) + (ContentsText(contents) + (PageTail() + rest)), parent, images)
         == Some(PageRead(parent, images, w, h, contents))
  {
    hide MediaBoxText, ContentsText, PageTail, ReadMediaBox, ReadContents;
    MediaBoxReads(w, h, ContentsText(contents) + (PageTail() + rest));
    ContentsReads(contents, rest);
  }

  lemma NoImage(w: nat, h: nat, rest: string)
    ensures Expect(MediaBoxText(w, h) + rest, "/Image") == None
  {
    var s := MediaBoxText(w, h) + rest;
    assert s[0] == '>';
    assert "/Image"[0] == '/';
    hide MediaBoxText;
  }

  /** A page object reads back as a child of the page tree, which is object 2, with the images it was made from, its
      size and its contents. */
  lemma PageReads(refs: seq<nat>, w: nat, h: nat, contents: nat, rest: string)
    ensures ReadPage(PageHead() + ImageRefsText(refs) + MediaBoxText(w, h) + ContentsText(contents) + PageTail() + rest)
         == Some(PageRead(2, refs, w, h, contents))
  {
    hide PageHead, ImageRefsText, MediaBoxText, ContentsText, PageTail, ReadImages, ReadParent, ReadPageEnd, Expect, ImagesFrom;
    var end := ContentsText(contents) + (PageTail() + rest);
    var s2 := MediaBoxText(w, h) + end;
    var s1 := ImagesFrom(refs, 0) + s2;
    ImagesMean(refs);
    assert PageHead() + ImageRefsText(refs) + MediaBoxText(w, h) + ContentsText(contents) + PageTail() + rest
        == PageHead() + s1;
    ParentReads(s1);
    NoImage(w, h, end);
    ImagesRead(refs, 0, s2);
    PageEndReads(2, refs, w, h, contents, rest);
  }

  // ----- the whole file -----

  lemma HoldsMeans(file: string, subs: seq<Subsection>, n: nat, body: string) returns (rest: string)
    requires Holds(file, subs, n, body)
    ensures ReadObject(file, subs, n) == Some(body + rest)
  {
    hide ReadObject;
    var r := ReadObject(file, subs, n).value;
    rest := r[|body|..];
    assert r == body + rest;
  }

  /** A reader finds the pages the page tree was made from. */
  lemma PagesRead(file: string, start: nat, kids: seq<nat>, objects: seq<string>)
    requires ReadsAs(file, start, Bodies(kids, objects))
    ensures ReadPages(file) == Some(kids)
  {
    hide ReadXref, ReadObject, Holds, Lookup, ReadCatalog, ReadPageTree, CatalogText, PageTreeText;
    var all, x := Bodies(kids, objects), ReadXref(file).value;
    assert PAGES_OBJ_NUMBER == 2 && all[0] == CatalogText() && all[1] == PageTreeText(kids);
    assert Holds(file, x.subs, 0 + 1, all[0]) && Holds(file, x.subs, 1 + 1, all[1]);
    var rest := HoldsMeans(file, x.subs, 1, CatalogText());
    CatalogReads(rest);
    rest := HoldsMeans(file, x.subs, 2, PageTreeText(kids));
    PageTreeReads(kids, rest);
  }
}
