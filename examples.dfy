/** Concrete runs of the composer on a sample asset URL. */
module Examples {
  import opened Wrappers
  import opened Frontend
  import Utf8
  import Base64
  import Percent
  import PyStr

  /** The sample URL `https://ik.example.com/demoacct/path/to/file.png`, written piece by piece around its first four '/'. */
  const Scheme: string := "https:"
  const Host: string := "ik.example.com"
  const Account: string := "demoacct"
  const FilePath: string := "path/to/file.png"
  const SampleUrl: string := Scheme + "/" + "" + "/" + Host + "/" + Account + "/" + FilePath

  /** "Hi" is the bytes 0x48 0x69, whose base64 is "SGk=" (sextets 18, 6, 36, then one pad). */
  lemma HiBase64()
    ensures Utf8.Encode("Hi") == [72, 105]
    ensures Base64.Encode([72, 105]) == [83, 71, 107, 61]
  {
    Utf8.EncodeAscii("Hi");
    assert Base64.Encode([72, 105]) == Base64.EncodeTail([72, 105]);
  }

  /** `quote("SGk=")` keeps the letters and escapes '=' as %3D. */
  lemma QuoteHiBase64()
    ensures Percent.QuoteFromBytes([83, 71, 107, 61], Percent.DefaultSafe) == "SGk%3D"
  {
    var safe := Percent.DefaultSafe;
    assert Percent.QuoteByte(61, safe) == "%3D";
    assert [61][1..] == [];
    var q2 := Percent.QuoteFromBytes([107, 61], safe);
    assert [107, 61][1..] == [61];
    assert q2 == "k%3D";
    var q1 := Percent.QuoteFromBytes([71, 107, 61], safe);
    assert [71, 107, 61][1..] == [107, 61];
    assert q1 == "Gk%3D";
    assert [83, 71, 107, 61][1..] == [71, 107, 61];
  }

  /** Caption "Hi" encodes to SGk%3D. */
  lemma CaptionHiEncoding()
    ensures EncodeTextForOverlay(Some("Hi")) == "SGk%3D"
  {
    EncodeTextForOverlayBytes("Hi");
    HiBase64();
    QuoteHiBase64();
  }

  /** The sample URL's fourth '/' is the one after the account name. */
  lemma SampleSplicePoint()
    ensures SampleUrl == "https://ik.example.com/demoacct/path/to/file.png"
    ensures PyStr.Count(SampleUrl, '/') >= 4
    ensures var k := PyStr.IndexAfterNth(SampleUrl, '/', 4);
      SampleUrl[..k] == Scheme + "/" + "" + "/" + Host + "/" + Account + "/" && SampleUrl[k..] == FilePath
  {
    SampleUrlLiteral();
    PyStr.FourthSeparator(Scheme, "", Host, Account, FilePath, '/');
  }

  /** The image card's directive spliced into the sample URL. */
  lemma ResizeExample()
    ensures CreateTransformedUrl(SampleUrl, Some(ImageDirective), None)
      == Scheme + "/" + "" + "/" + Host + "/" + Account + "/" + "tr:" + ImageDirective + "/" + FilePath
      == "https://ik.example.com/demoacct/" + "tr:w-900,h-900,cm-pad_resize" + "/path/to/file.png"
  {
    ResizeUrlLiteral();
    SampleSplicePoint();
    CreateTransformedUrlSplices(SampleUrl, Some(ImageDirective), None);
  }

  /** The same call with caption "Hi": the overlay replaces the resize directive. */
  lemma OverlayExample()
    ensures CreateTransformedUrl(SampleUrl, Some(ImageDirective), Some("Hi"))
      == Scheme + "/" + "" + "/" + Host + "/" + Account + "/" + "tr:" + OverlayHead + "SGk%3D" + OverlayTail + "/" + FilePath
      == "https://ik.example.com/demoacct/tr:l-text,ie-SGk%3D" + ",ly-N20,lx-20,fs-100,co-white,bg-000000A0,l-end" + "/path/to/file.png"
  {
    OverlayUrlLiteral();
    SampleSplicePoint();
    CaptionHiEncoding();
    CaptionOverlaySplice(SampleUrl, Some(ImageDirective), Some("Hi"));
  }

  // The expected URLs written out as literals, proved a few short pieces at a time.

  /** The sample URL written out. */
  lemma SampleUrlLiteral()
    ensures SampleUrl == "https://ik.example.com/demoacct/path/to/file.png"
  {
    BaseLiteral();
    assert SampleUrl == "https://ik.example.com/demoacct/" + "path/to/file.png";
  }

  lemma BaseLiteral()
    ensures Scheme + "/" + "" + "/" + Host + "/" + Account + "/" == "https://ik.example.com/demoacct/"
  {
  }

  lemma ResizeDirectiveLiteral()
    ensures "tr:" + ImageDirective == "tr:w-900,h-900,cm-pad_resize"
  {
  }

  lemma FilePathLiteral()
    ensures "/" + FilePath == "/path/to/file.png"
  {
  }

  lemma OverlayHeadLiteral()
    ensures "https://ik.example.com/demoacct/" + "tr:" + OverlayHead + "SGk%3D"
      == "https://ik.example.com/demoacct/tr:l-text,ie-SGk%3D"
  {
  }

  lemma OverlayTailLiteral()
    ensures OverlayTail == ",ly-N20,lx-20,fs-100,co-white,bg-000000A0,l-end"
  {
  }

  lemma Assoc(x: string, a: string, b: string)
    ensures x + a + b == x + (a + b)
  {
  }

  lemma ResizeUrlLiteral()
    ensures Scheme + "/" + "" + "/" + Host + "/" + Account + "/" + "tr:" + ImageDirective + "/" + FilePath
      == "https://ik.example.com/demoacct/" + "tr:w-900,h-900,cm-pad_resize" + "/path/to/file.png"
  {
    BaseLiteral();
    ResizeDirectiveLiteral();
    FilePathLiteral();
    Assoc("https://ik.example.com/demoacct/", "tr:", ImageDirective);
    Assoc("https://ik.example.com/demoacct/" + "tr:w-900,h-900,cm-pad_resize", "/", FilePath);
  }

  lemma OverlayUrlLiteral()
    ensures Scheme + "/" + "" + "/" + Host + "/" + Account + "/" + "tr:" + OverlayHead + "SGk%3D" + OverlayTail + "/" + FilePath
      == "https://ik.example.com/demoacct/tr:l-text,ie-SGk%3D" + ",ly-N20,lx-20,fs-100,co-white,bg-000000A0,l-end" + "/path/to/file.png"
  {
    BaseLiteral();
    OverlayHeadLiteral();
    OverlayTailLiteral();
    FilePathLiteral();
    Assoc("https://ik.example.com/demoacct/tr:l-text,ie-SGk%3D" + ",ly-N20,lx-20,fs-100,co-white,bg-000000A0,l-end", "/", FilePath);
  }
}
