/** The PCLm writer: a PDF file emitted through a buffer that every call resets. */
module PclmWriter {
  import opened Common
  import opened PdfText
  import opened PdfReader
  import opened PclmTexts
  import opened PclmStreams
  import opened PclmLayout
  import opened PclmTrailer

  class PclmGenerator {
    var objCounter: nat
    var xRefTable: seq<int>     // empty until the first object
    var kids: seq<nat>
    var currBuff: string
    var totalBytes: int         // a C `int`
    var pageCount: nat
    var adobeFirstTime: bool
    var mirrorBackside: bool
    var reverseOrder: bool
    var firstStrip: bool
    var hasLeftover: bool       // a call brought more lines than one strip; never cleared again
    var leftoverLines: int
    var setup: PageSetup
    var stripHeight: nat
    var topMargin: nat
    var numFull: nat
    var fullLines: nat
    var partialLines: nat
    const profile: string
    ghost var file: string        // everything emitted so far
    ghost var offsets: seq<nat>   // the positions whose 32-bit values the offset table holds
    ghost var callStart: nat      // where the current call's output begins in it
    ghost var pageRefs: seq<nat>  // the objects the current page names as its images
    ghost var stripObjs: seq<nat> // the objects its strips were written to
    ghost var objects: seq<string> // what object 3, 4, ... holds
    ghost var stripBodies: seq<string> // what the current page's strips hold
    ghost var firstObj: nat       // the object number of the current page's first strip
    ghost var iccObj: nat         // the object number of the colour profile's array, once written

    /** Every entry of the offset table is, in 32 bits, where its object stands; entry k belongs to object
        k + 2, and the counter is at the next number. Every object but the colour space is a dictionary. */
    ghost predicate Valid()
      reads `totalBytes, `file, `offsets, `callStart, `currBuff, `xRefTable, `objCounter, `objects,
            `adobeFirstTime, `iccObj
    {
      && totalBytes == Wrap32(|file|)
      && callStart <= |file| && currBuff == file[callStart..]
      && Recorded(file, xRefTable, offsets, objects) && objCounter == |objects| + 3
      && Dictionaries(objects, iccObj)
      && (!adobeFirstTime ==> ProfileAt(objects, iccObj, profile))
    }

    constructor (iccProfile: string)
      ensures Valid() && file == "" && pageCount == 0 && kids == [] && objCounter == 3 && adobeFirstTime
      ensures objects == [] && profile == iccProfile && Settled() && iccObj == 0 && !hasLeftover
    {
      objCounter, xRefTable, kids, currBuff, totalBytes := PAGES_OBJ_NUMBER + 1, [], [], "", 0;
      pageCount, adobeFirstTime, mirrorBackside, reverseOrder, firstStrip := 0, true, true, false, false;
      setup := PageSetup(0, 0, 612, 792, Res600, 0, 16, DeviceRGB, Dct, false, false);
      stripHeight, topMargin, numFull, fullLines, partialLines := 16, 0, 0, 0, 0;
      hasLeftover, leftoverLines := false, 0;
      profile := iccProfile;
      file, offsets, callStart, pageRefs, stripObjs, objects := "", [], 0, [], [], [];
      stripBodies, firstObj, iccObj := [], 0, 0;
    }

    /** `initOutBuff`. */
    method InitOutBuff()
      requires Valid()
      modifies this`currBuff, this`callStart
      ensures Valid() && callStart == |file|
    {
      currBuff := "";
      callStart := |file|;
    }

    lemma ObjectsStand()
      requires Valid()
      ensures objCounter == |objects| + 3 && totalBytes == Wrap32(|file|)
      ensures Recorded(file, xRefTable, offsets, objects) && Dictionaries(objects, iccObj)
    {
    }

    /** The output of the current call. */
    method Output() returns (out: string)
      requires Valid()
      ensures callStart <= |file| && out == file[callStart..]
    {
      out := currBuff;
    }

    /** `writeStr2OutBuff` and `write2Buff`. */
    method Write(s: string)
      requires Valid()
      modifies this`currBuff, this`totalBytes, this`file
      ensures Valid() && file == old(file) + s
    {
      hide Wrap32, Recorded, Dictionaries, ProfileAt;
      Wrap32Add(|file|, |s|);
      RecordedGrows(file, file + s, xRefTable, offsets, objects);
      currBuff := currBuff + s;
      totalBytes := Wrap32(totalBytes + |s|);
      file := file + s;
    }

    /** `statOutputFileSize`, on top of `addXRef`. */
    method RecordOffset(table: seq<int>) returns (r: seq<int>)
      requires Valid()
      ensures r == (if table == [] then [0] else table) + [Wrap32(|file|)]
    {
      r := table;
      if r == [] {
        r := [0];
      }
      r := r + [totalBytes];
    }

    /** Records the offset, writes the next numbered object and advances the counter. */
    method AddObject(body: string) returns (obj: nat)
      requires Valid() && (IsDictionary(body) || objCounter == iccObj)
      modifies this`currBuff, this`totalBytes, this`file, this`offsets, this`xRefTable, this`objCounter, this`objects
      ensures Valid() && obj == old(objCounter) && objCounter == obj + 1
      ensures file == old(file) + ObjText(obj) + body && objects == old(objects) + [body]
    {
      hide ObjText, Wrap32, Recorded, Dictionaries, ProfileAt;
      obj := objCounter;
      var table := RecordOffset(xRefTable);
      ghost var before, at := file, Offset(offsets, |file|);
      Write(ObjText(obj));
      Write(body);
      RecordedNext(before, file, xRefTable, offsets, objects, body);
      DictionariesNext(objects, iccObj, body);
      ProfileKept(objects, objects + [body], iccObj, profile);
      offsets := at;
      xRefTable := table;
      objCounter := objCounter + 1;
      objects := objects + [body];
    }

    /** One subsection of the cross-reference section: its header, then an entry per object. */
    method WriteSubsection(sub: Subsection)
      requires Valid()
      modifies this`currBuff, this`totalBytes, this`file
      ensures Valid() && file == old(file) + SubsectionText(sub)
    {
      hide PclmGenerator.Valid, EntryText, Dec;
      ghost var before := file;
      ghost var head := Dec(sub.first) + " " + Dec(|sub.entries|) + "\n";
      Write(Dec(sub.first) + " " + Dec(|sub.entries|) + "\n");
      assert EntriesText(sub.entries[..0]) == "";
      assert head + "" == head;
      var i := 0;
      while i < |sub.entries|
        invariant 0 <= i <= |sub.entries| && Valid()
        invariant file == before + (head + EntriesText(sub.entries[..i]))
      {
        Write(EntryText(sub.entries[i]));
        EntriesGrow(sub.entries, i);
        Reassociate(before, head, EntriesText(sub.entries[..i]), EntryText(sub.entries[i]));
        i := i + 1;
      }
      assert sub.entries[..|sub.entries|] == sub.entries;
    }

    // ----- pages -----

    /** No object is the colour space while it is still due. */
    ghost predicate Settled()
      reads `adobeFirstTime, `iccObj
    {
      adobeFirstTime ==> iccObj == 0
    }

    /** A page to come would be mirrored: it is a back side, and its own setup or that of the page before it, which
        `StartPage` still looks at, asks for it. */
    predicate MirrorsNext(s: PageSetup)
      reads `pageCount, `mirrorBackside
    {
      s.longEdge && (pageCount + 1) % 2 == 0 && (mirrorBackside || s.mirrorBackside)
    }

    /** The current page is a mirrored back side. */
    predicate Mirrored()
      reads `setup, `pageCount, `mirrorBackside
    {
      setup.longEdge && pageCount % 2 == 0 && mirrorBackside
    }

    lemma SettledMeans()
      requires Settled()
      ensures adobeFirstTime ==> iccObj == 0
    {
    }

    /** The object number the next strip will get: the colour profile, if still due, comes first. */
    ghost function NextStrip(): nat
      reads `objCounter, `setup, `adobeFirstTime
    {
      objCounter + (if setup.color == AdobeRGB && adobeFirstTime then 2 else 0)
    }

    /** What holds between `StartPage` and `EndPage`: the fields describe the margin, and the strips follow
        one another two objects apart. */
    ghost predicate OnPage()
      reads `setup, `topMargin, `stripHeight, `numFull, `fullLines, `partialLines, `pageCount, `mirrorBackside,
            `objCounter, `adobeFirstTime, `iccObj, `objects, `firstObj, `stripObjs, `stripBodies
    {
      && pageCount >= 1 && !Mirrored() && (adobeFirstTime ==> iccObj == 0) && MarginReady()
      && firstObj + 2 * |stripObjs| == NextStrip()
      && stripObjs == Refs(firstObj, |stripObjs|)
      && StripsStand(objects, stripObjs, stripBodies)
    }

    /** `StartJob`. */
    method StartJob() returns (out: string)
      requires Valid()
      modifies this`currBuff, this`totalBytes, this`file, this`callStart
      ensures Valid() && file == old(file) + out && out == "%PDF-1.7\n%PCLm 1.0\n"
    {
      assert HeaderText() == "%PDF-1.7\n%PCLm 1.0\n";
      hide *;
      InitOutBuff();
      Write(HeaderText());
      out := Output();
      assert out == HeaderText();
    }

    /** The fields `StartPage` sets. */
    method SetPage(s: PageSetup)
      requires !MirrorsNext(s) && s.Printable()
      modifies this`setup, this`stripHeight, this`topMargin, this`numFull, this`fullLines, this`partialLines,
               this`pageCount, this`reverseOrder
      ensures pageCount == old(pageCount) + 1 && setup == s && !reverseOrder && MarginReady()
      ensures !(s.longEdge && pageCount % 2 == 0 && s.mirrorBackside)
    {
      setup := s;
      topMargin := s.topMargin;
      RoundMargin();
      stripHeight := s.stripHeight;
      if stripHeight == 0 {
        stripHeight := s.sourceHeight;
      }
      pageCount := pageCount + 1;
      reverseOrder := s.longEdge && pageCount % 2 == 0 && mirrorBackside;
      DivideMargin();
    }

    /** The margin, to the nearest boundary of sixteen lines. */
    method RoundMargin()
      modifies this`topMargin
      ensures topMargin == RoundTo16(old(topMargin))
    {
      if topMargin % 16 != 0 {
        var i := topMargin % 16;
        if i < 8 {
          topMargin := topMargin - i;
        } else {
          topMargin := topMargin + (16 - i);
        }
      }
    }

    /** The blank strips that make up the top margin. */
    method DivideMargin()
      requires setup.Printable() && topMargin == setup.Margin() && stripHeight == setup.StripHeight()
      modifies this`numFull, this`fullLines, this`partialLines
      ensures MarginReady()
    {
      hide RoundTo16;
      if topMargin > 0 {
        if topMargin <= stripHeight {
          numFull, fullLines, partialLines := 1, topMargin, 0;
          assert Repeated(topMargin, 1) + [] == [topMargin];
        } else {
          numFull, fullLines := topMargin / stripHeight, stripHeight;
          partialLines := Remainder(topMargin, stripHeight);
        }
      }
    }

    /** The fields describe the margin and the strips of the current page. */
    ghost predicate MarginReady()
      reads `setup, `topMargin, `stripHeight, `numFull, `fullLines, `partialLines
    {
      && setup.Printable() && topMargin == setup.Margin() && stripHeight == setup.StripHeight()
      && setup.MarginHeights() == Injected(topMargin, numFull, fullLines, partialLines)
    }

    lemma MarginReadyMeans()
      requires MarginReady()
      ensures setup.Printable() && setup.MarginHeights() == Injected(topMargin, numFull, fullLines, partialLines)
    {
    }

    /** `writePDFGrammarPage`, first object: the page, naming the images that are to come. */
    method WritePageObject()
      requires Valid() && MarginReady()
      modifies this`currBuff, this`totalBytes, this`file, this`offsets, this`xRefTable, this`objCounter, this`objects,
               this`kids, this`pageRefs
      ensures Valid() && old(file) <= file
      ensures var obj := old(objCounter);
              && kids == old(kids) + [obj] && objCounter == obj + 1
              && objects == old(objects) + [PageText(setup, pageRefs, obj + 1)]
              && pageRefs == Refs(obj + 2 + ProfileShift(setup, pageCount == 1), |setup.Heights()|)
    {
      hide *;
      var imageRef := objCounter + 2;
      if setup.color == AdobeRGB && pageCount == 1 {
        imageRef := imageRef + 2;
      }
      ShiftMeans(setup, pageCount == 1);
      Write(CommentText("FileBody: Object 3 - page object"));
      MarginReadyMeans();
      var refs := ImageRefs(setup, imageRef, topMargin, numFull, fullLines, partialLines);
      pageRefs := Refs(imageRef, |setup.Heights()|);
      var text := PageHead() + refs + MediaBoxText(setup.mediaWidth, setup.mediaHeight)
                  + ContentsText(objCounter + 1) + PageTail();
      PageTextMeans(setup, pageRefs, objCounter + 1);
      PageIsDictionary(setup, pageRefs, objCounter + 1);
      var obj := AddObject(text);
      kids := kids + [obj];
    }

    /** `writePDFGrammarPage`, second object: the stream that places the strips. */
    method WriteContents()
      requires Valid() && !reverseOrder && MarginReady()
      modifies this`currBuff, this`totalBytes, this`file, this`offsets, this`xRefTable, this`objCounter, this`objects
      ensures Valid() && old(file) <= file && objCounter == old(objCounter) + 1
      ensures objects == old(objects) + [StreamText(ContentText(setup.resolution, setup.pixelWidth, setup.Places()))]
      ensures StreamDraws(setup, objects[|objects| - 1])
    {
      hide *;
      Write(MatrixComment());
      MarginReadyMeans();
      var content := BuildContent(setup, topMargin, numFull, fullLines, partialLines);
      Write(CommentText("FileBody: Page Content Stream object"));
      StreamIsDictionary(content);
      ContentsDraw(setup, "");
      var stream := AddObject(StreamText(content));
    }

    /** Everything `StartPage` emits. */
    method EmitPage(ticket: string) returns (out: string)
      requires Valid() && !reverseOrder && MarginReady()
      modifies this`currBuff, this`totalBytes, this`file, this`offsets, this`xRefTable, this`objCounter, this`objects,
               this`kids, this`pageRefs, this`callStart
      ensures Valid() && file == old(file) + out
      ensures kids == old(kids) + [old(objCounter)] && objCounter == old(objCounter) + 2
      ensures objects == old(objects) + [PageText(setup, pageRefs, old(objCounter) + 1),
                                         StreamText(ContentText(setup.resolution, setup.pixelWidth, setup.Places()))]
      ensures StreamDraws(setup, objects[|objects| - 1])
      ensures pageRefs == Refs(old(objCounter) + 2 + ProfileShift(setup, pageCount == 1), |setup.Heights()|)
    {
      hide *;
      InitOutBuff();
      Write(ticket);
      WritePageObject();
      WriteContents();
      out := Output();
      assert file == old(file) + out;
    }

    /** `StartPage`, for a page that is not mirrored. */
    method StartPage(s: PageSetup, ticket: string) returns (out: string)
      requires Valid() && Settled() && s.Printable() && !MirrorsNext(s)
      modifies this`currBuff, this`totalBytes, this`file, this`offsets, this`xRefTable, this`objCounter, this`objects,
               this`kids, this`pageRefs, this`callStart, this`setup, this`stripHeight, this`topMargin, this`numFull,
               this`fullLines, this`partialLines, this`pageCount, this`reverseOrder, this`mirrorBackside,
               this`firstStrip, this`stripObjs, this`stripBodies, this`firstObj
      ensures Valid() && OnPage() && firstStrip && setup == s && file == old(file) + out
      ensures pageCount == old(pageCount) + 1
      ensures kids == old(kids) + [old(objCounter)] && objCounter == old(objCounter) + 2
      ensures objects == old(objects) + [PageText(s, pageRefs, old(objCounter) + 1),
                                         StreamText(ContentText(s.resolution, s.pixelWidth, s.Places()))]
      ensures StreamDraws(s, objects[|objects| - 1])
      ensures pageRefs == Refs(old(objCounter) + 2 + ProfileShift(s, pageCount == 1), |s.Heights()|)
      ensures firstObj == objCounter + ProfileShift(s, adobeFirstTime)
      ensures stripObjs == [] && stripBodies == [] && mirrorBackside == s.mirrorBackside
    {
      hide *;
      SettledMeans();
      SetPage(s);
      out := EmitPage(ticket);
      BeginStrips();
    }

    /** The page has no strip yet. */
    method BeginStrips()
      requires MarginReady() && pageCount >= 1 && (adobeFirstTime ==> iccObj == 0)
      requires !(setup.longEdge && pageCount % 2 == 0 && setup.mirrorBackside)
      modifies this`mirrorBackside, this`firstStrip, this`stripObjs, this`stripBodies, this`firstObj
      ensures OnPage() && firstStrip && stripObjs == [] && stripBodies == []
      ensures mirrorBackside == setup.mirrorBackside
      ensures firstObj == objCounter + ProfileShift(setup, adobeFirstTime)
    {
      hide PclmGenerator.MarginReady;
      mirrorBackside := setup.mirrorBackside;
      firstStrip := true;
      stripObjs, stripBodies := [], [];
      firstObj := NextStrip();
    }

    /** `injectAdobeRGBCS`: the colour space and its profile, before the first strip that uses them. */
    method InjectProfile()
      requires Valid() && (adobeFirstTime ==> iccObj == 0)
      modifies this`currBuff, this`totalBytes, this`file, this`offsets, this`xRefTable, this`objCounter, this`objects,
               this`adobeFirstTime, this`iccObj
      ensures Valid() && !adobeFirstTime && old(file) <= file && old(objects) <= objects
      ensures objCounter == old(objCounter) + (if old(adobeFirstTime) then 2 else 0)
      ensures iccObj == if old(adobeFirstTime) then old(objCounter) else old(iccObj)
    {
      hide *;
      if adobeFirstTime {
        Write(CommentText("ICC Profile"));
        AddProfile();
      }
    }

    /** The two objects of the colour space. */
    method AddProfile()
      requires Valid() && adobeFirstTime && iccObj == 0
      modifies this`currBuff, this`totalBytes, this`file, this`offsets, this`xRefTable, this`objCounter, this`objects,
               this`adobeFirstTime, this`iccObj
      ensures Valid() && !adobeFirstTime && old(file) <= file && old(objects) <= objects
      ensures objCounter == old(objCounter) + 2 && iccObj == old(objCounter)
    {
      ObjectsStand();
      hide *;
      NameColorSpace();
      ghost var before, icc := objects, objCounter;
      var space := AddObject(IccText(objCounter + 1));
      ProfileIsDictionary(profile);
      var stream := AddObject(ProfileText(profile));
      ProfileStandsThere(before, icc, profile);
      ClearFirstTime();
    }

    /** The next object is to be the colour space. */
    ghost method NameColorSpace()
      requires Valid() && adobeFirstTime && iccObj == 0
      modifies this`iccObj
      ensures Valid() && iccObj == objCounter
    {
      DictionariesRenamed(objects, |objects| + 3);
      iccObj := objCounter;
      hide Recorded, Dictionaries, Wrap32;
    }

    /** The check that every strip makes. */
    method PrepareColor()
      requires Valid() && (adobeFirstTime ==> iccObj == 0)
      modifies this`currBuff, this`totalBytes, this`file, this`offsets, this`xRefTable, this`objCounter, this`objects,
               this`adobeFirstTime, this`iccObj
      ensures Valid() && old(file) <= file && old(objects) <= objects
      ensures adobeFirstTime == (old(adobeFirstTime) && setup.color != AdobeRGB)
      ensures objCounter == old(objCounter) + (if setup.color == AdobeRGB && old(adobeFirstTime) then 2 else 0)
      ensures iccObj == if setup.color == AdobeRGB && old(adobeFirstTime) then old(objCounter) else old(iccObj)
    {
      hide *;
      if setup.color == AdobeRGB {
        InjectProfile();
      }
    }

    /** From now on the profile is in the file. */
    method ClearFirstTime()
      requires Valid() && adobeFirstTime && ProfileAt(objects, iccObj, profile)
      modifies this`adobeFirstTime
      ensures Valid() && !adobeFirstTime
    {
      adobeFirstTime := false;
    }

    /** `injectJPEG`, `injectLZStrip` and `injectRLEStrip`: a strip and its transform. */
    method InjectStrip(height: nat, data: string, white: bool)
      requires Valid() && OnPage()
      modifies this`currBuff, this`totalBytes, this`file, this`offsets, this`xRefTable, this`objCounter, this`objects,
               this`adobeFirstTime, this`iccObj, this`stripObjs, this`stripBodies
      ensures Valid() && OnPage() && old(file) <= file && old(objects) <= objects
      ensures stripBodies == old(stripBodies) + [StripText(setup.pixelWidth, height, setup.color, setup.filter, white, data)]
      ensures adobeFirstTime == (old(adobeFirstTime) && setup.color != AdobeRGB)
      ensures iccObj == if old(adobeFirstTime) && setup.color == AdobeRGB then old(objCounter) else old(iccObj)
    {
      hide *;
      OnPageMeans();
      ghost var before := objects;
      PrepareColor();
      var body := StripText(setup.pixelWidth, height, setup.color, setup.filter, white, data);
      StripIsDictionary(setup.pixelWidth, height, setup.color, setup.filter, white, data);
      var obj := WriteStrip(setup.filter, body);
      NoteStrip(before, obj, body);
    }

    /** The strip object and `injectImageTransform`. */
    method WriteStrip(filter: Compression, body: string) returns (obj: nat)
      requires Valid() && IsDictionary(body)
      modifies this`currBuff, this`totalBytes, this`file, this`offsets, this`xRefTable, this`objCounter, this`objects
      ensures Valid() && old(file) <= file && old(objects) <= objects
      ensures obj == old(objCounter) && objCounter == obj + 2
      ensures 3 <= obj < |objects| + 3 && objects[obj - 3] == body
    {
      hide *;
      ObjectsStand();
      Write(StripComment(filter));
      obj := AddObject(body);
      WriteTransform();
    }

    /** `injectImageTransform`. */
    method WriteTransform()
      requires Valid()
      modifies this`currBuff, this`totalBytes, this`file, this`offsets, this`xRefTable, this`objCounter, this`objects
      ensures Valid() && old(file) <= file && objCounter == old(objCounter) + 1
      ensures objects == old(objects) + [TransformText()]
      ensures ReadStream(objects[|objects| - 1]) == Some("q /image Do Q\n")
    {
      hide *;
      Write(CommentText("Object - Image Transformation "));
      TransformIsDictionary();
      var transform := AddObject(TransformText());
      TransformReads("");
      assert TransformText() + "" == TransformText();
    }

    lemma OnPageMeans()
      requires OnPage()
      ensures pageCount >= 1 && !Mirrored() && (adobeFirstTime ==> iccObj == 0) && MarginReady()
      ensures firstObj + 2 * |stripObjs| == objCounter + (if setup.color == AdobeRGB && adobeFirstTime then 2 else 0)
      ensures stripObjs == Refs(firstObj, |stripObjs|) && StripsStand(objects, stripObjs, stripBodies)
    {
    }

    lemma StaysSettled()
      requires OnPage()
      ensures Settled()
    {
    }

    /** The strip just written is the next one of the page. */
    ghost method NoteStrip(before: seq<string>, obj: nat, body: string)
      requires pageCount >= 1 && !Mirrored() && (adobeFirstTime ==> iccObj == 0) && MarginReady()
      requires stripObjs == Refs(firstObj, |stripObjs|) && obj == firstObj + 2 * |stripObjs| && objCounter == obj + 2
      requires setup.color != AdobeRGB || !adobeFirstTime
      requires StripsStand(before, stripObjs, stripBodies) && before <= objects
      requires 3 <= obj < |objects| + 3 && objects[obj - 3] == body
      modifies this`stripObjs, this`stripBodies
      ensures OnPage() && stripBodies == old(stripBodies) + [body]
    {
      hide PclmGenerator.MarginReady;
      stripObjs, stripBodies := stripObjs + [obj], stripBodies + [body];
    }

    /** The blank strips of the top margin; `blank(h)` is what compressing h white lines gives. */
    method InjectMargin(blank: nat -> string)
      requires Valid() && OnPage() && topMargin > 0
      modifies this`currBuff, this`totalBytes, this`file, this`offsets, this`xRefTable, this`objCounter, this`objects,
               this`adobeFirstTime, this`iccObj, this`stripObjs, this`stripBodies
      ensures Valid() && OnPage() && old(file) <= file && old(objects) <= objects
      ensures setup.Printable() && stripBodies == old(stripBodies) + MarginBodies(setup, blank)
      ensures var any := setup.color == AdobeRGB && |setup.MarginHeights()| > 0;
              && adobeFirstTime == (old(adobeFirstTime) && !any)
              && iccObj == (if old(adobeFirstTime) && any then old(objCounter) else old(iccObj))
              && (setup.MarginHeights() == [] ==> objCounter == old(objCounter))
    {
      hide *;
      ghost var before := stripBodies;
      OnPageMeans();
      MarginReadyMeans();
      MarginStrips(setup, blank, topMargin, numFull, fullLines, partialLines);
      var i := 0;
      while i < numFull
        invariant 0 <= i <= numFull && Valid() && OnPage() && old(file) <= file && old(objects) <= objects
        invariant stripBodies == before + MarginBodies(setup, blank)[..i]
        invariant var any := setup.color == AdobeRGB && i > 0;
                  && adobeFirstTime == (old(adobeFirstTime) && !any)
                  && iccObj == (if old(adobeFirstTime) && any then old(objCounter) else old(iccObj))
                  && (i == 0 ==> objCounter == old(objCounter))
      {
        InjectStrip(fullLines, blank(fullLines), true);
        i := i + 1;
      }
      if partialLines > 0 {
        InjectStrip(partialLines, blank(partialLines), true);
      }
    }

    /** `Encapsulate`: the strip that holds the lines, before the first one also the top margin. `data` is what
        compressing the lines gives. Once a call has brought more lines than one strip, the rest is kept for the
        next call, and every further strip counts as full; it takes as many new lines as are missing, and C
        would copy a negative number of them if the call brought fewer or the rest were higher than a strip. */
    method Encapsulate(lines: nat, blank: nat -> string, data: string, looksWhite: bool) returns (out: string)
      requires Valid() && OnPage()
      requires hasLeftover ==> leftoverLines <= stripHeight <= leftoverLines + lines
      modifies this`currBuff, this`totalBytes, this`file, this`offsets, this`xRefTable, this`objCounter, this`objects,
               this`adobeFirstTime, this`iccObj, this`stripObjs, this`stripBodies, this`callStart, this`firstStrip,
               this`hasLeftover, this`leftoverLines
      ensures Valid() && OnPage() && !firstStrip && file == old(file) + out && old(objects) <= objects
      ensures setup.Printable() && setup.StripHeight() == stripHeight
      ensures var height := if old(hasLeftover) then stripHeight else lines;
              stripBodies == old(stripBodies) + (if old(firstStrip) then MarginBodies(setup, blank) else [])
                             + [StripBody(setup, height, data, looksWhite && !old(firstStrip))]
      ensures hasLeftover == (old(hasLeftover) || lines > stripHeight)
      ensures hasLeftover ==> leftoverLines == (if old(hasLeftover) then old(leftoverLines) else 0) + lines - stripHeight
      ensures adobeFirstTime == (old(adobeFirstTime) && setup.color != AdobeRGB)
      ensures iccObj == if old(adobeFirstTime) && setup.color == AdobeRGB then old(objCounter) else old(iccObj)
    {
      hide *;
      var numLinesThisCall := TakeLines(lines);
      InitOutBuff();
      ghost var before := file;
      NoMargin(blank);
      var whiteStrip := looksWhite && !firstStrip;
      WriteLines(numLinesThisCall, blank, data, whiteStrip);
      out := Output();
      assert file == before + out;
    }

    /** The margin if it is due, and the strip. */
    method WriteLines(numLines: nat, blank: nat -> string, data: string, white: bool)
      requires Valid() && OnPage()
      modifies this`currBuff, this`totalBytes, this`file, this`offsets, this`xRefTable, this`objCounter, this`objects,
               this`adobeFirstTime, this`iccObj, this`stripObjs, this`stripBodies, this`firstStrip
      ensures Valid() && OnPage() && !firstStrip && old(file) <= file && old(objects) <= objects
      ensures setup.Printable()
      ensures stripBodies == old(stripBodies) + (if old(firstStrip) then MarginBodies(setup, blank) else [])
                             + [StripBody(setup, numLines, data, white)]
      ensures adobeFirstTime == (old(adobeFirstTime) && setup.color != AdobeRGB)
      ensures iccObj == if old(adobeFirstTime) && setup.color == AdobeRGB then old(objCounter) else old(iccObj)
    {
      hide *;
      NoMargin(blank);
      BeforeStrip(blank);
      StripBodyMeans(setup, numLines, data, white);
      InjectStrip(if setup.filter == Dct then stripHeight else numLines, data, white);
    }

    /** The top margin, before the first strip. */
    method BeforeStrip(blank: nat -> string)
      requires Valid() && OnPage()
      modifies this`currBuff, this`totalBytes, this`file, this`offsets, this`xRefTable, this`objCounter, this`objects,
               this`adobeFirstTime, this`iccObj, this`stripObjs, this`stripBodies, this`firstStrip
      ensures Valid() && OnPage() && !firstStrip && old(file) <= file && old(objects) <= objects
      ensures setup.Printable()
      ensures stripBodies == old(stripBodies) + if old(firstStrip) then MarginBodies(setup, blank) else []
      ensures setup.color != AdobeRGB ==> adobeFirstTime == old(adobeFirstTime)
      ensures adobeFirstTime ==> old(adobeFirstTime)
      ensures adobeFirstTime == old(adobeFirstTime) ==>
                iccObj == old(iccObj) && (setup.color == AdobeRGB && adobeFirstTime ==> objCounter == old(objCounter))
      ensures adobeFirstTime != old(adobeFirstTime) ==> iccObj == old(objCounter)
    {
      hide *;
      NoMargin(blank);
      if firstStrip && topMargin > 0 {
        InjectMargin(blank);
      }
      firstStrip := false;
    }

    /** How many lines this call encodes, and what is left for the next one. */
    method TakeLines(lines: nat) returns (numLinesThisCall: nat)
      requires hasLeftover ==> leftoverLines <= stripHeight <= leftoverLines + lines
      modifies this`hasLeftover, this`leftoverLines
      ensures numLinesThisCall == if old(hasLeftover) then stripHeight else lines
      ensures hasLeftover == (old(hasLeftover) || lines > stripHeight)
      ensures hasLeftover ==> leftoverLines == (if old(hasLeftover) then old(leftoverLines) else 0) + lines - stripHeight
    {
      var thisHeight := lines;
      numLinesThisCall := lines;
      if hasLeftover {
        leftoverLines := lines - (stripHeight - leftoverLines);
        numLinesThisCall, thisHeight := stripHeight, stripHeight;
      }
      if thisHeight > stripHeight {
        hasLeftover, leftoverLines := true, thisHeight - stripHeight;
      }
    }

    lemma ProfileStands()
      requires Valid()
      ensures Dictionaries(objects, iccObj) && (!adobeFirstTime ==> ProfileAt(objects, iccObj, profile))
    {
    }

    lemma NoMargin(blank: nat -> string)
      requires OnPage()
      ensures setup.Printable() && (topMargin == 0 ==> MarginBodies(setup, blank) == [])
      ensures setup.StripHeight() == stripHeight
    {
      hide NextStrip, Refs, StripsStand, PageSetup.MarginHeights, PageSetup.StripHeight;
    }

    /** `EndPage` emits nothing. */
    method EndPage() returns (out: string)
      requires Valid()
      modifies this`currBuff, this`callStart
      ensures Valid() && file == old(file) + out && out == ""
    {
      InitOutBuff();
      out := Output();
    }

    /** The catalog and the page tree, whose numbers are fixed. */
    method WriteRoots(ghost f0: string) returns (table: seq<int>, ghost at1: nat, ghost at2: nat, ghost f1: string, ghost f2: string)
      requires Valid() && f0 == file
      modifies this`currBuff, this`totalBytes, this`file
      ensures Valid() && f0 <= f1 <= f2 <= file && at1 <= |f1| && at2 <= |f2|
      ensures TextAt(f1, at1, ObjText(1) + CatalogText()) && TextAt(f2, at2, ObjText(2) + PageTreeText(kids))
      ensures table == (if xRefTable == [] then [0] else xRefTable) + [Wrap32(at1)] + [Wrap32(at2)]
    {
      assert CATALOG_OBJ_NUMBER == 1 && PAGES_OBJ_NUMBER == 2;
      hide *;
      table, at1 := WriteRoot(xRefTable, "FileBody: Object 1 - Catalog", CATALOG_OBJ_NUMBER, CatalogText());
      f1 := file;
      table, at2 := WriteRoot(table, "FileBody: Object 2 - page tree ", PAGES_OBJ_NUMBER, PageTreeText(kids));
      f2 := file;
      Write(CommentText("cross-reference section: object 0, 6 entries"));
      assert f2 <= file;
    }

    /** The catalog and the page tree, up to the cross-reference section. */
    method WriteRootObjects() returns (table: seq<int>, ghost offs: seq<nat>)
      requires Valid()
      modifies this`currBuff, this`totalBytes, this`file
      ensures Valid() && old(file) <= file && objCounter == |objects| + 3
      ensures table == Wrapped(offs) && |offs| == objCounter + 1 && offs[objCounter] == |file|
      ensures Standing(file, offs, Bodies(kids, objects))
    {
      ObjectsStand();
      hide *;
      ghost var f0, f1, f2, at1, at2 := file, "", "", 0, 0;
      RecordedMeans(f0, xRefTable, offsets, objects);
      table, at1, at2, f1, f2 := WriteRoots(f0);
      table := RecordOffset(table);
      offs := Offset(Offset(Offset(offsets, at1), at2), |file|);
      WrappedThrice(offsets, at1, at2, |file|);
      RootsStand(f0, f1, f2, file, offsets, at1, at2, objects, PageTreeText(kids));
    }

    /** One object with a fixed number. */
    method WriteRoot(table: seq<int>, what: string, obj: nat, body: string) returns (r: seq<int>, ghost at: nat)
      requires Valid()
      modifies this`currBuff, this`totalBytes, this`file
      ensures Valid() && old(file) <= file
      ensures r == (if table == [] then [0] else table) + [Wrap32(at)] && at <= |file|
      ensures TextAt(file, at, ObjText(obj) + body)
    {
      hide *;
      Write(CommentText(what));
      r := RecordOffset(table);
      at := |file|;
      ghost var before := file;
      Write(ObjText(obj));
      Write(body);
      TextAtEnd(before, ObjText(obj) + body);
      assert file == before + (ObjText(obj) + body);
    }

    /** The cross-reference section and the trailer, from a complete offset table. */
    method WriteXref(table: seq<int>)
      requires Valid() && |table| >= 4
      modifies this`currBuff, this`totalBytes, this`file
      ensures Valid() && file == old(file) + EndText(table)
    {
      hide PclmGenerator.Valid, SizeText, TrailerEnd, RootText, TrailerStart, SubsectionText, SectionText;
      ghost var before := file;
      var xRefIndex := |table|;
      var xRefStart := xRefIndex - 1;
      var entries := [];
      var i := 1;
      while i < xRefIndex - 3
        invariant 1 <= i <= xRefIndex - 3
        invariant |entries| == i - 1 && forall k | 0 <= k < |entries| :: entries[k] == InUse(table[k + 1])
      {
        entries := entries + [InUse(table[i])];
        i := i + 1;
      }
      var roots := [InUse(table[xRefIndex - 3]), InUse(table[xRefIndex - 2])];
      Write("xref\n");
      WriteSubsection(Subsection(0, [Free]));
      WriteSubsection(Subsection(PAGES_OBJ_NUMBER + 1, entries));
      WriteSubsection(Subsection(CATALOG_OBJ_NUMBER, roots));
      SectionOfThree(before, Subsection(0, [Free]), Subsection(3, entries), Subsection(1, roots));
      assert [Subsection(0, [Free]), Subsection(3, entries), Subsection(1, roots)] == Sections(table) by {
        assert entries == Sections(table)[1].entries;
      }
      WriteTrailer(xRefIndex - 1, table[xRefStart]);
      ThreeTexts(before, SectionText(Sections(table)), AfterSection(xRefIndex - 1, table[xRefStart]));
    }

    method WriteTrailer(size: nat, start: int)
      requires Valid()
      modifies this`currBuff, this`totalBytes, this`file
      ensures Valid() && file == old(file) + AfterSection(size, start)
    {
      hide PclmGenerator.Valid, SizeText, TrailerEnd, RootText, TrailerStart;
      Write(TrailerStart());
      Write(SizeText(size));
      Write(RootText());
      Write(TrailerEnd(start));
    }

    /** `EndJob` with `writePDFGrammarTrailer`: whatever was written before, a reader of the complete file finds
        everything in it, through a cross-reference section that starts at `start` as it should as long as that
        is below 2^31. From there on the number it is told is wrong. */
    method EndJob() returns (out: string, ghost start: nat)
      requires Valid()
      modifies this
      ensures file == old(file) + out && start <= |file| && "xref\n" <= file[start..]
      ensures objects == old(objects) && old(objCounter) == |objects| + 3 && xRefTable == [] && kids == []
      ensures ReadStart(file) == Some(start) <==> start < INT32
      ensures start < INT32 ==> ReadsAs(file, start, Bodies(old(kids), objects))
    {
      hide *;
      InitOutBuff();
      var table;
      ghost var offs;
      table, offs := WriteRootObjects();
      start := |file|;
      ghost var before := file;
      StandingMeans(before, offs, Bodies(kids, objects));
      BodiesCount(kids, objects);
      WriteXref(table);
      FileIsRead(before, offs, Bodies(kids, objects));
      SectionBegins(before, table);
      out := Output();
      assert file == old(file) + out;
      xRefTable, kids := [], [];
    }
  }

  // ----- the offset table -----

  /** Entry k of the table is the position of object k + 2 in 32 bits; entry 0 is not used. */
  ghost predicate Recorded(file: string, table: seq<int>, offsets: seq<nat>, objects: seq<string>) {
    && table == Wrapped(offsets)
    && (if offsets == [] then objects == [] else |offsets| == |objects| + 1 && offsets[0] == 0)
    && (forall k | 0 <= k < |offsets| :: offsets[k] <= |file|)
    && (forall k | 1 <= k < |offsets| :: TextAt(file, offsets[k], ObjText(k + 2) + objects[k - 1]))
  }

  ghost function Offset(offsets: seq<nat>, at: nat): seq<nat> {
    (if offsets == [] then [0] else offsets) + [at]
  }

  lemma RecordedMeans(file: string, table: seq<int>, offsets: seq<nat>, objects: seq<string>)
    requires Recorded(file, table, offsets, objects)
    ensures table == Wrapped(offsets) && (table == [] <==> offsets == [])
  {
  }

  lemma RecordedGrows(earlier: string, file: string, table: seq<int>, offsets: seq<nat>, objects: seq<string>)
    requires Recorded(earlier, table, offsets, objects) && earlier <= file
    ensures Recorded(file, table, offsets, objects)
  {
    hide TextAt, ObjText, Wrapped;
    forall k | 1 <= k < |offsets|
      ensures TextAt(file, offsets[k], ObjText(k + 2) + objects[k - 1])
    {
      TextAtPrefix(earlier, file, offsets[k], ObjText(k + 2) + objects[k - 1]);
    }
  }

  lemma WrappedNext(offsets: seq<nat>, at: nat)
    ensures Wrapped(Offset(offsets, at)) == (if offsets == [] then [0] else Wrapped(offsets)) + [Wrap32(at)]
    ensures |Offset(offsets, at)| == (if offsets == [] then 2 else |offsets| + 1)
  {
    Wrap32Means(0);
    hide Wrap32;
  }

  lemma WrappedThrice(offsets: seq<nat>, a: nat, b: nat, c: nat)
    ensures Wrapped(Offset(Offset(Offset(offsets, a), b), c))
         == (if offsets == [] then [0] else Wrapped(offsets)) + [Wrap32(a)] + [Wrap32(b)] + [Wrap32(c)]
    ensures |Offset(Offset(Offset(offsets, a), b), c)| == (if offsets == [] then 4 else |offsets| + 3)
  {
    hide Offset, Wrapped;
    WrappedNext(offsets, a);
    WrappedNext(Offset(offsets, a), b);
    WrappedNext(Offset(Offset(offsets, a), b), c);
  }

  /** One more object at the end of the file. */
  lemma RecordedNext(before: string, file: string, table: seq<int>, offsets: seq<nat>, objects: seq<string>, body: string)
    requires Recorded(before, table, offsets, objects) && file == before + ObjText(|objects| + 3) + body
    ensures Recorded(file, (if table == [] then [0] else table) + [Wrap32(|before|)], Offset(offsets, |before|),
                     objects + [body])
  {
    RecordedGrows(before, file, table, offsets, objects);
    WrappedNext(offsets, |before|);
    TextAtEnd(before, ObjText(|objects| + 3) + body);
    assert file == before + (ObjText(|objects| + 3) + body);
    hide TextAt, ObjText, Wrapped, Wrap32;
  }

  lemma RootsStand(f0: string, f1: string, f2: string, file: string, offsets: seq<nat>, at1: nat, at2: nat,
                   objects: seq<string>, pages: string)
    requires f0 <= f1 <= f2 <= file && at1 <= |f1| && at2 <= |f2|
    requires Recorded(f0, Wrapped(offsets), offsets, objects)
    requires TextAt(f1, at1, ObjText(1) + CatalogText())
    requires TextAt(f2, at2, ObjText(2) + pages)
    ensures var offs := Offset(Offset(Offset(offsets, at1), at2), |file|);
            |offs| == |objects| + 4 && offs[|objects| + 3] == |file|
            && Standing(file, offs, [CatalogText(), pages] + objects)
  {
    hide TextAt, ObjText, CatalogText, Wrapped;
    TextAtPrefix(f1, file, at1, ObjText(1) + CatalogText());
    TextAtPrefix(f2, file, at2, ObjText(2) + pages);
    RecordedGrows(f0, file, Wrapped(offsets), offsets, objects);
    var offs := Offset(Offset(Offset(offsets, at1), at2), |file|);
    var all := [CatalogText(), pages] + objects;
    forall k | 1 <= k < |all| - 1
      ensures TextAt(file, offs[k], ObjText(k + 2) + all[k + 1])
    {
      assert offs[k] == offsets[k] && all[k + 1] == objects[k - 1];
    }
  }

  lemma SectionBegins(before: string, table: seq<int>)
    requires |table| >= 4
    ensures "xref\n" <= (before + EndText(table))[|before|..]
  {
    hide AfterSection, SubsectionsText, Sections;
  }

  lemma BodiesCount(kids: seq<nat>, objects: seq<string>)
    ensures |Bodies(kids, objects)| == |objects| + 2
  {
  }

  lemma ThreeTexts(a: string, b: string, c: string)
    ensures a + b + c == a + (b + c)
  {
  }

  // ----- the objects -----

  /** An object begins with a stream that draws the page's strips. */
  ghost predicate StreamDraws(s: PageSetup, text: string)
    requires s.Printable()
  {
    ReadStream(text).Some? && PageDraws(s, ReadStream(text).value)
  }

  lemma ContentsDraw(s: PageSetup, rest: string)
    requires s.Printable()
    ensures StreamDraws(s, StreamText(ContentText(s.resolution, s.pixelWidth, s.Places())) + rest)
    ensures StreamText(ContentText(s.resolution, s.pixelWidth, s.Places())) + ""
         == StreamText(ContentText(s.resolution, s.pixelWidth, s.Places()))
  {
    hide StreamText, ContentText, ReadStream, PageDraws, PageSetup.Places, PageSetup.Printable;
    StreamReads(ContentText(s.resolution, s.pixelWidth, s.Places()), rest);
    PlacesDraw(s);
  }

  predicate IsDictionary(body: string) { body != "" && body[0] == '<' }

  /** Every object but `icc` is a dictionary. */
  ghost predicate Dictionaries(objects: seq<string>, icc: nat) {
    forall k | 0 <= k < |objects| && k + 3 != icc :: IsDictionary(objects[k])
  }

  lemma DictionariesNext(objects: seq<string>, icc: nat, body: string)
    requires Dictionaries(objects, icc) && (IsDictionary(body) || |objects| + 3 == icc)
    ensures Dictionaries(objects + [body], icc)
  {
    hide IsDictionary;
  }

  lemma DictionariesRenamed(objects: seq<string>, icc: nat)
    requires Dictionaries(objects, 0)
    ensures Dictionaries(objects, icc)
  {
    hide IsDictionary;
  }

  lemma ProfileKept(earlier: seq<string>, objects: seq<string>, icc: nat, profile: string)
    requires earlier <= objects
    ensures ProfileAt(earlier, icc, profile) ==> ProfileAt(objects, icc, profile)
  {
    hide IccText, ProfileText;
  }

  lemma ProfileStandsThere(before: seq<string>, icc: nat, profile: string)
    requires icc == |before| + 3
    ensures ProfileAt(before + [IccText(icc + 1)] + [ProfileText(profile)], icc, profile)
  {
    hide IccText, ProfileText;
  }

  lemma PageIsDictionary(s: PageSetup, refs: seq<nat>, contents: nat)
    ensures IsDictionary(PageText(s, refs, contents))
  {
    var head := "<<\n/Type /Page\n/Parent " + Dec(PAGES_OBJ_NUMBER) + " 0 R\n/Resources <<\n/XObject <<\n";
    assert head[0] == '<';
    hide Dec, ImageRefsText, ContentsText, MediaBoxText, PageTail;
  }

  lemma StreamIsDictionary(content: string)
    ensures IsDictionary(StreamText(content))
  {
    hide Dec;
  }

  lemma TransformIsDictionary()
    ensures IsDictionary(TransformText())
  {
    hide Dec;
  }

  lemma StripIsDictionary(width: nat, height: nat, color: ColorSpace, filter: Compression, white: bool, data: string)
    ensures IsDictionary(StripText(width, height, color, filter, white, data))
  {
    hide Dec, ColorText, FilterText;
  }

  lemma ProfileIsDictionary(profile: string)
    ensures IsDictionary(ProfileText(profile))
  {
  }

  /** The colour space is the only array: under another number there is none. */
  lemma NoOtherProfile(objects: seq<string>, icc: nat, n: nat, profile: string)
    requires Dictionaries(objects, icc) && n != icc
    ensures !ProfileAt(objects, n, profile)
  {
    assert IccText(n + 1)[0] == '[';
    hide IccText, ProfileText;
  }

  /** The image resources of a page, numbered as the strips will be. */
  method ImageRefs(s: PageSetup, first: nat, margin: nat, numFull: nat, fullLines: nat, partialLines: nat)
    returns (text: string)
    requires s.Printable() && s.MarginHeights() == Injected(margin, numFull, fullLines, partialLines)
    ensures text == ImageRefsText(Refs(first, |s.Heights()|))
  {
    hide ImageRefText, ImageRefsText, Refs, PageSetup.MarginHeights, PageSetup.Heights, Injected;
    RefsStep(first, 0);
    InjectedAt(margin, numFull, fullLines, partialLines);
    HeightCount(s);
    var imageRef, start := first, 0;
    text := "";
    if margin > 0 {
      while start < numFull
        invariant 0 <= start <= numFull && imageRef == first + 2 * start
        invariant text == ImageRefsText(Refs(first, start))
      {
        RefsStep(first, start);
        text := text + ImageRefText(start, imageRef);
        imageRef := imageRef + 2;
        start := start + 1;
      }
      if partialLines > 0 {
        RefsStep(first, start);
        text := text + ImageRefText(start, imageRef);
        imageRef := imageRef + 2;
        start := start + 1;
      }
    }
    var numStrips := s.StripCount();
    var i := start;
    while i < numStrips + start
      invariant start <= i <= numStrips + start && imageRef == first + 2 * i
      invariant text == ImageRefsText(Refs(first, i))
    {
      RefsStep(first, i);
      text := text + ImageRefText(i, imageRef);
      imageRef := imageRef + 2;
      i := i + 1;
    }
  }

  /** What is left of the margin after its full strips. */
  function Remainder(margin: nat, h: nat): (r: nat)
    requires 0 < h
    ensures r == margin % h
  {
    assert margin == margin / h * h + margin % h;
    margin - margin / h * h
  }

  lemma RefsStep(first: nat, n: nat)
    ensures ImageRefsText(Refs(first, 0)) == ""
    ensures ImageRefsText(Refs(first, n + 1)) == ImageRefsText(Refs(first, n)) + ImageRefText(n, first + 2 * n)
  {
    assert Refs(first, n + 1)[..n] == Refs(first, n);
  }

  /** The numbers of n strips, the first of which is `first`: a strip and a transform each. */
  function Refs(first: nat, n: nat): (r: seq<nat>)
    ensures |r| == n
  {
    seq(n, k requires 0 <= k < n => first + 2 * k)
  }

  ghost predicate StripsStand(objects: seq<string>, objs: seq<nat>, bodies: seq<string>) {
    && |bodies| == |objs|
    && forall k | 0 <= k < |objs| :: 3 <= objs[k] < |objects| + 3 && objects[objs[k] - 3] == bodies[k]
  }

  /** The strip object for some lines of the image: a JPEG strip is always filled up to its full height. */
  function StripBody(s: PageSetup, lines: nat, data: string, white: bool): string {
    StripText(s.pixelWidth, if s.filter == Dct then s.StripHeight() else lines, s.color, s.filter, white, data)
  }

  function MarginBodies(s: PageSetup, blank: nat -> string): (r: seq<string>)
    requires s.Printable()
    ensures |r| == |s.MarginHeights()|
  {
    var heights := s.MarginHeights();
    seq(|heights|, k requires 0 <= k < |heights| =>
      StripText(s.pixelWidth, heights[k], s.color, s.filter, true, blank(heights[k])))
  }

  lemma MarginStrips(s: PageSetup, blank: nat -> string, margin: nat, numFull: nat, fullLines: nat, partialLines: nat)
    requires s.Printable() && margin > 0
    requires s.MarginHeights() == Injected(margin, numFull, fullLines, partialLines)
    ensures var b := MarginBodies(s, blank);
            && |b| == numFull + (if partialLines > 0 then 1 else 0)
            && b[..0] == []
            && (forall i | 0 <= i < numFull ::
                  b[..i + 1] == b[..i] + [StripText(s.pixelWidth, fullLines, s.color, s.filter, true, blank(fullLines))])
            && b == b[..numFull] + (if partialLines == 0 then []
                 else [StripText(s.pixelWidth, partialLines, s.color, s.filter, true, blank(partialLines))])
  {
    hide StripText;
  }

  lemma ShiftMeans(s: PageSetup, due: bool)
    ensures ProfileShift(s, due) == if s.color == AdobeRGB && due then 2 else 0
  {
  }

  lemma PageTextMeans(s: PageSetup, refs: seq<nat>, contents: nat)
    ensures PageText(s, refs, contents)
         == PageHead() + ImageRefsText(refs) + MediaBoxText(s.mediaWidth, s.mediaHeight) + ContentsText(contents) + PageTail()
  {
  }

  lemma StripBodyMeans(s: PageSetup, lines: nat, data: string, white: bool)
    ensures StripBody(s, lines, data, white)
         == StripText(s.pixelWidth, if s.filter == Dct then s.StripHeight() else lines, s.color, s.filter, white, data)
  {
  }

  /** Object `icc` is an ICC based colour space whose profile is the next object. */
  ghost predicate ProfileAt(objects: seq<string>, icc: nat, profile: string) {
    && 3 <= icc < |objects| + 2
    && objects[icc - 3] == IccText(icc + 1) && objects[icc - 2] == ProfileText(profile)
  }

  function ProfileShift(s: PageSetup, due: bool): nat {
    if s.color == AdobeRGB && due then 2 else 0
  }

  function PageText(s: PageSetup, refs: seq<nat>, contents: nat): string {
    PageHead() + ImageRefsText(refs) + MediaBoxText(s.mediaWidth, s.mediaHeight) + ContentsText(contents) + PageTail()
  }

  lemma EntriesGrow(entries: seq<Entry>, i: nat)
    requires i < |entries|
    ensures EntriesText(entries[..i + 1]) == EntriesText(entries[..i]) + EntryText(entries[i])
  {
    assert entries[..i + 1][..i] == entries[..i];
  }

  lemma Reassociate(a: string, b: string, c: string, d: string)
    ensures a + (b + c) + d == a + (b + (c + d))
  {
  }
}
