# Media-URL transformation composer

This project is a Dafny model of the part of the social-media client
(`frontend.py`) that builds display URLs for the feed's media. Two helpers do
this:

- `encode_text_for_overlay(text)` turns a caption into text that can sit inside
  an ImageKit text-overlay directive. It encodes the caption as UTF-8, then as
  base64, then percent-encodes the base64 text with `urllib.parse.quote`.
  A missing or empty caption encodes to `""`.
- `create_transformed_url(original_url, transformation_params, caption)`
  computes an effective directive. A non-empty caption replaces any passed
  directive with the fixed overlay template `l-text,ie-<encoded>,ly-N20,...,l-end`.
  The function then splits the URL on `/`. When the URL has at least five
  pieces it rejoins them with a `tr:<directive>` piece after the fourth piece,
  that is, right after the URL's fourth `/`. Any other URL is returned
  unchanged.

Python's `None` is `Option.None`. The source's `if caption:` and `if not text:`
tests become `IsTruthy`, which means present and non-empty. Strings are
`seq<char>`.

Modules:

- `Utf8`: the UTF-8 encoder and a strict decoder (RFC 3629, section 3), with
  round trips proved in both directions.
- `Base64`: the base64 encoder with `=` padding and a strict decoder
  (RFC 4648, section 4), with a round trip proved.
- `Percent`: `urllib.parse.quote_from_bytes`/`quote`. Always-safe characters
  are ASCII letters, digits and `_.-~`, plus the ASCII characters of `safe`,
  which defaults to `/`. Hex digits are uppercase. The partner is
  `unquote_to_bytes`.
- `PyStr`: Python's `str.split`/`str.join` on one separator character, and
  the position just after the n-th separator.
- `Frontend`: the two helpers, the directive constants and the two call sites,
  with their properties.
- `Examples`: concrete instances, such as caption `"Hi"` encoding to `SGk%3D`
  and a rewritten sample URL.
- `SlashEscaping`: the finding below, showing both the behaviour as written and
  the corrected encoder.

The image card is sometimes described as resizing first and then layering the
caption on top. The code at `frontend.py:260` makes one call, with the resize
directive and the caption together, so a caption replaces the resize. The model
follows the code (`Frontend.ImageCaptionDropsResize`). All helpers are pure
functions of their arguments, so determinism and the absence of side effects
hold by construction.

## Model

| member | source | states |
|---|---|---|
| Utf8.EncodeScalar | frontend.py:108 | Each character encodes to 1 to 4 bytes. It is one byte exactly when its code is below 0x80, and that byte is the code. Every later byte is a continuation byte. |
| Utf8.Encode | frontend.py:108 | `text.encode('utf-8')` has between one and four bytes per character. ASCII text gives exactly one byte per character. |
| Utf8.EncodeAscii | frontend.py:108 | The UTF-8 of ASCII text is the sequence of its character codes. |
| Utf8.DecodeScalar | frontend.py:108 | The strict decoder reads 1 to 4 bytes from a non-empty input, and an ASCII byte decodes to itself in one byte. |
| Utf8.Decode | frontend.py:108 | `bytes.decode('utf-8')` accepts every all-ASCII byte string and gives text of the same length. |
| Utf8.DecodeEncode | frontend.py:108 | Decoding the UTF-8 of any text gives that text back. |
| Utf8.EncodeDecode | frontend.py:108 | Every byte string the strict decoder accepts is the UTF-8 of what it decodes to, so `.decode('utf-8')` of the base64 bytes loses nothing. |
| Utf8.EncodeInjective | frontend.py:108 | Distinct texts have distinct UTF-8 encodings. |
| Base64.Letter | frontend.py:108 | Each sextet maps to a base64 alphabet byte that maps back to the same sextet. |
| Base64.Encode | frontend.py:108 | `b64encode` output has length 4 * ceil(n/3), and each byte is an alphabet byte or `=`. |
| Base64.DecodeEncode | frontend.py:108 | Strict base64 decoding of the encoding of any bytes gives those bytes back. |
| Base64.EncodeInjective | frontend.py:108 | Distinct byte strings have distinct base64 encodings. |
| Percent.HexDigit | frontend.py:109 | Each nibble maps to an uppercase hex digit whose value is that nibble. |
| Percent.QuoteByte | frontend.py:109 | A safe byte is kept as its character. Any other byte becomes `%XY` with uppercase hex digits whose value is the byte. |
| Percent.QuoteFromBytes | frontend.py:109 | `quote` output is ASCII, and its length is the input length plus two per unsafe byte. |
| Percent.UnquoteQuote | frontend.py:109 | When `%` is not a safe character, `unquote_to_bytes` undoes `quote_from_bytes`. |
| Percent.QuoteFromBytesInjective | frontend.py:109 | When `%` is not safe, distinct byte strings quote differently. |
| Percent.Quote | frontend.py:109 | `urllib.parse.quote(s, safe)` output is ASCII. When `%` is not safe, `unquote_to_bytes` of it gives back the UTF-8 of `s`. |
| Percent.QuoteOmits | frontend.py:109 | An unsafe ASCII character that is neither `%` nor a hex digit never appears in `quote`'s output. |
| PyStr.Split | frontend.py:120 | `str.split('/')` gives one more piece than there are separators, and no piece contains the separator. |
| PyStr.Join | frontend.py:124-125 | `'/'.join` of k >= 1 pieces contains the pieces' own separators plus k - 1 more. |
| PyStr.JoinSplit | frontend.py:120-125 | Joining the pieces of a split gives back the original string. |
| PyStr.SplitJoin | frontend.py:120-125 | Splitting the join of separator-free pieces gives back the pieces. |
| PyStr.JoinConcat | frontend.py:124-126 | Joining a concatenation of two non-empty piece lists joins each part and puts one separator between them. |
| PyStr.IndexAfterNth | frontend.py:124-125 | The position just after the n-th separator lies in the string, is preceded by the separator, and has exactly n separators before it. |
| PyStr.SplitPrefixSuffix | frontend.py:120-125 | With at least n separators, `join(parts[:n])` is the text before the n-th separator and `join(parts[n:])` is the text after it. |
| Frontend.Base64Text | frontend.py:108 | `b64encode(...).decode('utf-8')` is text whose UTF-8 is exactly the base64 bytes of the caption's UTF-8. So a non-empty caption's encoding is `quote` of the base64 of its UTF-8. |
| Frontend.EncodeWith | frontend.py:108-109 | The quoted base64 text is at least as long as the base64 encoding. |
| Frontend.EncodeTextForOverlay | frontend.py:104-109 | The encoding is `""` exactly when the caption is None or empty. |
| Frontend.EncodedOverlayAlphabet | frontend.py:108-109 | The encoded caption consists of letters, digits, `/`, `%2B` and `%3D` only, so it never holds a raw `+`, `=` or `,`. |
| Frontend.EncodeWithRoundTrip | frontend.py:108-109 | Percent-decoding and then base64-decoding the encoding gives back the caption's UTF-8 bytes, and they decode to the caption. |
| Frontend.OverlayRoundTrip | frontend.py:104-109 | The round trip holds for `encode_text_for_overlay` on every caption. The empty encoding of None or `""` decodes to no bytes, and any other caption decodes to its UTF-8. |
| Frontend.OverlayInjective | frontend.py:104-109 | Captions with equal encodings are both falsy or are equal. |
| Frontend.OverlayDirective | frontend.py:114 | The overlay directive is the template's fixed head and tail around the encoded caption, so its length is theirs plus the encoding's. |
| Frontend.EffectiveDirective | frontend.py:112-115 | A truthy caption gives a truthy overlay directive. Otherwise the passed directive is used unchanged. |
| Frontend.InsertDirective | frontend.py:117-126 | A falsy directive, or a URL with fewer than four `/`, leaves the URL unchanged. |
| Frontend.CreateTransformedUrl | frontend.py:111-126 | No directive and no caption, or fewer than four `/`, returns the URL unchanged. |
| Frontend.InsertDirectiveSplices | frontend.py:117-126 | Otherwise the result is the URL with `tr:<directive>/` inserted right after its fourth `/`, and it is longer by the directive's length plus 4. |
| Frontend.CreateTransformedUrlSplices | frontend.py:111-126 | The same splice, stated for `create_transformed_url` with its effective directive. |
| Frontend.CaptionOverridesDirective | frontend.py:112-115 | With a truthy caption, the passed directive has no influence on the result, and the effective directive is the overlay template around the encoded caption. |
| Frontend.CaptionOverlaySplice | frontend.py:112-126 | With a truthy caption and at least four `/`, the URL gets `tr:l-text,ie-<encoded>,...,l-end/` after its fourth `/`. |
| Frontend.InsertDirectiveJoin | frontend.py:120-126 | The rewritten URL is the `'/'.join` of the URL's pieces with `tr:<directive>` inserted at index 4. |
| Frontend.InsertDirectiveSegments | frontend.py:120-126 | A directive without `/` becomes exactly one new path piece, `tr:<directive>`, at index 4, and every other piece is kept. |
| Frontend.ImagePostUrl | frontend.py:260 | Without a caption, the image card's URL carries the `w-900,h-900,cm-pad_resize` directive. |
| Frontend.VideoPostUrl | frontend.py:265 | The video card's URL always carries the `w-900,h-500,cm-pad_resize` directive. |
| Frontend.ImageCaptionDropsResize | frontend.py:260 | With a caption, the image card's URL is the overlay-only URL, and it differs from the resized URL on every URL that gets rewritten. |
| Examples.CaptionHiEncoding | frontend.py:104-109 | Caption `"Hi"` encodes to `SGk%3D`. |
| Examples.SampleSplicePoint | frontend.py:120-125 | The sample URL is `https://ik.example.com/demoacct/path/to/file.png`, and its fourth `/` is the one after the account name. |
| Examples.ResizeExample | frontend.py:117-126 | `https://ik.example.com/demoacct/path/to/file.png` with the image directive becomes `https://ik.example.com/demoacct/tr:w-900,h-900,cm-pad_resize/path/to/file.png`. |
| Examples.OverlayExample | frontend.py:111-126 | The same URL with caption `"Hi"` gets `tr:l-text,ie-SGk%3D,ly-N20,lx-20,fs-100,co-white,bg-000000A0,l-end/` before `path/to/file.png`. |
| SlashEscaping.QuestionMarksEncoding | frontend.py:108-109 | Caption `"???"` encodes to `Pz8/`, which keeps the base64 `/`. |
| SlashEscaping.RewriteSlashCount | frontend.py:124-126 | The rewritten URL has one more `/` than the URL, plus one for every `/` in the directive. |
| SlashEscaping.CaptionSlashesAddPieces | frontend.py:111-126 | As written, every `/` kept in the encoded caption adds one more path piece, on top of the `tr:` piece. |
| SlashEscaping.CaptionSlashSplitsDirective | frontend.py:109 | As written, caption `"???"` adds two path pieces to any rewritten URL instead of one, because its directive is cut in two. |
| SlashEscaping.EncodeTextForOverlayEscapingSlash | frontend.py:104-109 | The corrected encoder, `quote(..., safe='')`, is `""` exactly for a falsy caption, and its output holds no `/`, `+`, `=` or `,`. |
| SlashEscaping.CreateTransformedUrlEscapingSlash | frontend.py:111-126 | `create_transformed_url` with the corrected encoder keeps the no-directive and short-URL cases unchanged. |
| SlashEscaping.CaptionDirectiveIsOneSegment | frontend.py:111-126 | With the corrected encoder, a caption overlay is always exactly one new path piece at index 4, and the encoding still round-trips to the caption's UTF-8. |

## Left out

- The Streamlit pages, HTTP calls, `get_headers`, session state and HTML rendering around the two helpers. They are UI and I/O and change nothing in the URL computation.
- `imagekit_id = parts[3]` (frontend.py:123) is computed and never used, so it has no counterpart.
- Text containing lone surrogates, for which `text.encode('utf-8')` raises `UnicodeEncodeError`. Dafny's `char` is a Unicode scalar value, so such text cannot be formed and that error path is not modelled.
- A non-`str` caption (the source only passes `post.get('caption', '')`). Captions are `Option<string>`.
- The fast paths and caching inside `urllib.parse.quote`. They return the same text as the byte-by-byte definition modelled in `Percent.QuoteFromBytes`.
- `Percent.Quote` is modelled only with its default `encoding='utf-8'` and `errors='strict'`, the ones the source uses.

## Findings

| source | as written | input that shows it | evidently intended | confidence | as-written member | corrected member |
|---|---|---|---|---|---|---|
| frontend.py:109 | `urllib.parse.quote(base64_text)` keeps `/`, which is in its default safe set, so a base64 `/` stays raw inside the `tr:` directive and the directive is no longer one path segment | caption `"???"`: base64 `Pz8/`, so the URL gets `tr:l-text,ie-Pz8/,ly-N20,...` and two new path pieces instead of one | percent-encode every base64 character that is not URL-safe, `/` included (`quote(base64_text, safe='')`), so the overlay is one segment and still round-trips | medium, not executed | SlashEscaping.CaptionSlashSplitsDirective | SlashEscaping.CaptionDirectiveIsOneSegment |

The `Frontend` module keeps the behaviour as written, because that is what the
client sends. `SlashEscaping.EncodeTextForOverlayEscapingSlash` and
`SlashEscaping.CreateTransformedUrlEscapingSlash` are the corrected versions.
