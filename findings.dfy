/**
 * The caption encoder keeps base64's '/' unescaped (it is in `quote`'s
 * default safe set), so a caption whose base64 contains '/' puts a raw '/'
 * inside the `tr:` directive, and the directive no longer is one path
 * segment. This module shows it on the caption "???" (base64 "Pz8/") and
 * proves the evidently intended property for an encoder that also escapes '/'.
 */
module SlashEscaping {
  import opened Wrappers
  import opened Frontend
  import Utf8
  import Base64
  import Percent
  import PyStr

  /** The overlay template itself holds no '/'. */
  lemma TemplateHasNoSlash()
    ensures '/' !in OverlayHead && '/' !in OverlayTail
    ensures PyStr.Count(OverlayHead, '/') == 0 && PyStr.Count(OverlayTail, '/') == 0
  {
    assert '/' !in ",ly-N20" && '/' !in ",lx-20" && '/' !in ",fs-100";
    assert '/' !in ",co-white" && '/' !in ",bg-000000A0" && '/' !in ",l-end";
    PyStr.SplitNoSeparator(OverlayHead, '/');
    PyStr.SplitNoSeparator(OverlayTail, '/');
  }

  /** Every '/' of the directive becomes one more '/' in the rewritten URL. */
  lemma RewriteSlashCount(url: string, directive: string)
    requires directive != "" && PyStr.Count(url, '/') >= 4
    ensures PyStr.Count(InsertDirective(url, Some(directive)), '/')
      == PyStr.Count(url, '/') + 1 + PyStr.Count(directive, '/')
  {
    InsertDirectiveSplices(url, Some(directive));
    var k := PyStr.IndexAfterNth(url, '/', 4);
    var pre, post := url[..k], url[k..];
    PyStr.CountConcat(pre + "tr:" + directive + "/", post, '/');
    PyStr.CountConcat(pre + "tr:" + directive, "/", '/');
    PyStr.CountConcat(pre + "tr:", directive, '/');
    PyStr.CountConcat(pre, "tr:", '/');
    PyStr.CountConcat(pre, post, '/');
    assert pre + post == url;
    PyStr.CountAbsent("tr:", '/');
    assert PyStr.Count("/", '/') == 1;
  }

  /** "???" is three 0x3F bytes, whose base64 is "Pz8/" (sextets 15, 51, 60, 63). */
  lemma QuestionMarksBase64()
    ensures Utf8.Encode("???") == [63, 63, 63]
    ensures Base64.Encode([63, 63, 63]) == [80, 122, 56, 47]
  {
    Utf8.EncodeAscii("???");
    assert [63, 63, 63][3..] == [];
    assert Base64.Encode([63, 63, 63]) == Base64.EncodeGroup(63, 63, 63);
  }

  /** `quote("Pz8/")` with the default safe '/' changes nothing. */
  lemma QuoteQuestionMarksBase64()
    ensures Percent.QuoteFromBytes([80, 122, 56, 47], Percent.DefaultSafe) == "Pz8/"
  {
    var safe := Percent.DefaultSafe;
    assert Percent.QuoteByte(47, safe) == "/";
    assert [47][1..] == [];
    var q2 := Percent.QuoteFromBytes([56, 47], safe);
    assert [56, 47][1..] == [47];
    assert q2 == "8/";
    var q1 := Percent.QuoteFromBytes([122, 56, 47], safe);
    assert [122, 56, 47][1..] == [56, 47];
    assert q1 == "z8/";
    assert [80, 122, 56, 47][1..] == [122, 56, 47];
  }

  /** As written, caption "???" encodes to "Pz8/": the base64 '/' is kept. */
  lemma QuestionMarksEncoding()
    ensures EncodeTextForOverlay(Some("???")) == "Pz8/"
  {
    EncodeTextForOverlayBytes("???");
    QuestionMarksBase64();
    QuoteQuestionMarksBase64();
  }

  /**
   * As written: each '/' the encoded caption keeps adds one more path piece to
   * the rewritten URL, on top of the one the `tr:` segment adds.
   */
  lemma {:induction false} CaptionSlashesAddPieces(url: string, params: Option<string>, caption: Option<string>)
    requires IsTruthy(caption) && PyStr.Count(url, '/') >= 4
    ensures |PyStr.Split(CreateTransformedUrl(url, params, caption), '/')|
      == |PyStr.Split(url, '/')| + 1 + PyStr.Count(EncodeTextForOverlay(caption), '/')
  {
    var e := EncodeTextForOverlay(caption);
    var d := OverlayHead + e + OverlayTail;
    CaptionOverridesDirective(url, params, params, caption);
    RewriteSlashCount(url, d);
    PyStr.CountConcat(OverlayHead + e, OverlayTail, '/');
    PyStr.CountConcat(OverlayHead, e, '/');
    TemplateHasNoSlash();
  }

  /**
   * As written: on any URL that is rewritten, caption "???" gives two more
   * path pieces than the URL has instead of one, because the overlay
   * directive is cut in two at the '/'.
   */
  lemma CaptionSlashSplitsDirective(url: string)
    requires PyStr.Count(url, '/') >= 4
    ensures EncodeTextForOverlay(Some("???")) == "Pz8/"
    ensures |PyStr.Split(CreateTransformedUrl(url, None, Some("???")), '/')| == |PyStr.Split(url, '/')| + 2
  {
    QuestionMarksEncoding();
    SlashCountPz8();
    CaptionSlashesAddPieces(url, None, Some("???"));
  }

  /** "Pz8/" holds exactly one '/'. */
  lemma SlashCountPz8()
    ensures PyStr.Count("Pz8/", '/') == 1
  {
    PyStr.CountAbsent("Pz8", '/');
    PyStr.CountConcat("Pz8", "/", '/');
    assert "Pz8" + "/" == "Pz8/";
  }

  /** The intended encoder: as `encode_text_for_overlay`, but `quote(..., safe='')`, so '/' becomes %2F. */
  function EncodeTextForOverlayEscapingSlash(text: Option<string>): (r: string)
    ensures r == "" <==> !IsTruthy(text)
    ensures forall i :: 0 <= i < |r| ==> r[i] != '/' && r[i] != '+' && r[i] != '=' && r[i] != ','
  {
    if !IsTruthy(text) then ""
    else
      var b := Base64.Encode(Utf8.Encode(text.value));
      assert Utf8.Encode(Base64Text(text.value)) == b;
      Percent.QuoteOmits(b, "", '/');
      Percent.QuoteOmits(b, "", '+');
      Percent.QuoteOmits(b, "", '=');
      Percent.QuoteOmits(b, "", ',');
      EncodeWith(text.value, "")
  }

  /** `create_transformed_url` with the intended encoder. */
  function CreateTransformedUrlEscapingSlash(url: string, params: Option<string>, caption: Option<string>): (r: string)
    ensures !IsTruthy(params) && !IsTruthy(caption) ==> r == url
    ensures PyStr.Count(url, '/') < 4 ==> r == url
  {
    var directive :=
      if IsTruthy(caption) then Some(OverlayDirective(EncodeTextForOverlayEscapingSlash(caption))) else params;
    InsertDirective(url, directive)
  }

  /**
   * With the intended encoder a caption overlay is always exactly one new path
   * segment, inserted as the fifth piece, and the encoding still round-trips.
   */
  lemma CaptionDirectiveIsOneSegment(url: string, params: Option<string>, caption: Option<string>)
    requires IsTruthy(caption) && PyStr.Count(url, '/') >= 4
    ensures var parts := PyStr.Split(url, '/');
      var d := OverlayDirective(EncodeTextForOverlayEscapingSlash(caption));
      PyStr.Split(CreateTransformedUrlEscapingSlash(url, params, caption), '/') == parts[..4] + ["tr:" + d] + parts[4..]
    ensures Base64.Decode(Percent.UnquoteToBytes(EncodeTextForOverlayEscapingSlash(caption)))
      == Some(Utf8.Encode(caption.value))
  {
    var e := EncodeTextForOverlayEscapingSlash(caption);
    var d := OverlayDirective(e);
    TemplateHasNoSlash();
    assert '/' !in e;
    assert '/' !in d;
    InsertDirectiveSegments(url, d);
    EncodeWithRoundTrip(caption.value, "");
  }
}
