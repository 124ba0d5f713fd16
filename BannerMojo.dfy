/**
 * The request-URI builder of the `generate` goal of SpringBootBannerMojo:
 * replaceGetParam and the two substitutions `execute` performs on the
 * request template before the banner is fetched.
 */
module BannerMojo {
  import opened StringReplace
  import opened FormEncoding
  import opened Wrappers

  const TextToken: string := "{text}"
  const FontToken: string := "{font}"

  /** Default of the `font` parameter. */
  const DefaultFont: string := "standard"

  /**
   * Default of the `request` parameter, written as the concatenation of its
   * fixed parts and its two tokens.
   */
  const DefaultRequest: string :=
    "https://devops.datenkollektiv.de" + "/renderBannerTxt?text=" + TextToken + "&font=" + FontToken

  /** replaceGetParam: replace every `search` in `uri` by the form-encoded `replacement`. */
  function ReplaceGetParam(uri: string, search: string, replacement: string): string {
    ReplaceAll(uri, search, FormEncode(replacement))
  }

  /** The request URI `execute` builds: `{text}` first, then `{font}`. */
  function ResolvedRequest(request: string, text: string, font: string): string {
    ReplaceGetParam(ReplaceGetParam(request, TextToken, text), FontToken, font)
  }

  predicate IsBraceFree(t: string) {
    '{' !in t && '}' !in t
  }

  /**
   * Every brace of the template belongs to a `{text}` or `{font}` token:
   * read left to right, each `{` starts one of the two tokens, and no `}`
   * stands outside them.
   */
  predicate BracesOnlyInTokens(t: string)
    decreases |t|
  {
    if t == [] then true
    else if t[0] == '{' then (TextToken <= t || FontToken <= t) && BracesOnlyInTokens(t[6..])
    else t[0] != '}' && BracesOnlyInTokens(t[1..])
  }

  /**
   * Reference definition of the resolved request: each token of the template
   * replaced, in one left-to-right pass, by the value that belongs to it.
   */
  function Substitute(t: string, textValue: string, fontValue: string): (r: string)
    requires BracesOnlyInTokens(t)
    ensures IsBraceFree(textValue) && IsBraceFree(fontValue) ==> IsBraceFree(r)
    decreases |t|
  {
    if t == [] then []
    else if t[0] == '{' then
      (if TextToken <= t then textValue else fontValue) + Substitute(t[6..], textValue, fontValue)
    else [t[0]] + Substitute(t[1..], textValue, fontValue)
  }

  /** A form-encoded value holds no brace. */
  lemma FormEncodeBraceFree(s: string)
    ensures IsBraceFree(FormEncode(s))
  {
    FormEncodeNoDelimiters(s);
  }

  /** A token is never found in a text without braces. */
  lemma BraceFreeHasNoToken(t: string, tok: string)
    requires IsBraceFree(t) && |tok| > 0 && tok[0] == '{'
    ensures !Contains(t, tok)
  {
    forall j | 0 <= j <= |t| ensures !MatchAt(t, tok, j) {
      if j + |tok| <= |t| {
        assert t[j..j + |tok|][0] == t[j];
      }
    }
  }

  /** A character at which the search string does not start is copied unchanged. */
  lemma ReplaceSkipsText(c: char, b: string, tok: string, e: string)
    requires |tok| > 0 && !(tok <= [c] + b)
    ensures ReplaceAll([c] + b, tok, e) == [c] + ReplaceAll(b, tok, e)
  {
    assert ([c] + b)[1..] == b;
  }

  /** A character that does not start the search string is copied unchanged. */
  lemma ReplaceSkipsChar(c: char, b: string, tok: string, e: string)
    requires |tok| > 0 && tok[0] != c
    ensures ReplaceAll([c] + b, tok, e) == [c] + ReplaceAll(b, tok, e)
  {
    var u := [c] + b;
    if |tok| <= |u| {
      assert u[..|tok|][0] == c;
    }
    assert u[1..] == b;
  }

  /** Text before the first `{` is copied unchanged when the search string starts with `{`. */
  lemma {:induction false} ReplaceSkipsBraceFree(a: string, b: string, tok: string, e: string)
    requires |tok| > 0 && tok[0] == '{' && '{' !in a
    ensures ReplaceAll(a + b, tok, e) == a + ReplaceAll(b, tok, e)
    decreases |a|
  {
    if a == [] {
      assert a + b == b;
    } else {
      var c, rest := a[0], a[1..];
      assert a == [c] + rest;
      assert c != '{' && '{' !in rest;
      assert a + b == [c] + (rest + b);
      ReplaceSkipsChar(c, rest + b, tok, e);
      ReplaceSkipsBraceFree(rest, b, tok, e);
      var tail := ReplaceAll(b, tok, e);
      assert [c] + (rest + tail) == a + tail;
    }
  }

  /** A token at the front is replaced. */
  lemma ReplaceToken(tok: string, b: string, e: string)
    requires |tok| > 0
    ensures ReplaceAll(tok + b, tok, e) == e + ReplaceAll(b, tok, e)
  {
    assert (tok + b)[|tok|..] == b;
  }

  /** The other token at the front is copied unchanged. */
  lemma ReplaceOtherToken(other: string, tok: string, b: string, e: string)
    requires other in {TextToken, FontToken} && tok in {TextToken, FontToken} && other != tok
    ensures ReplaceAll(other + b, tok, e) == other + ReplaceAll(b, tok, e)
  {
    var u := other + b;
    assert u[..6] == other;
    assert tok <= u <==> tok == u[..6];
    assert u[1..] == other[1..] + b;
    ReplaceSkipsBraceFree(other[1..], b, tok, e);
    assert other == [other[0]] + other[1..];
  }

  /**
   * When every brace of the template belongs to a token, the two-step
   * substitution of `execute`, in either order, is the one-pass substitution.
   */
  lemma {:induction false} TwoStepIsSubstitution(t: string, textValue: string, fontValue: string)
    requires BracesOnlyInTokens(t) && IsBraceFree(textValue) && IsBraceFree(fontValue)
    ensures ReplaceAll(ReplaceAll(t, TextToken, textValue), FontToken, fontValue) == Substitute(t, textValue, fontValue)
    ensures ReplaceAll(ReplaceAll(t, FontToken, fontValue), TextToken, textValue) == Substitute(t, textValue, fontValue)
    decreases |t|
  {
    if t == [] {
    } else if t[0] == '{' {
      var rest := t[6..];
      TwoStepIsSubstitution(rest, textValue, fontValue);
      if TextToken <= t {
        assert t == TextToken + rest;
        ReplaceToken(TextToken, rest, textValue);
        ReplaceSkipsBraceFree(textValue, ReplaceAll(rest, TextToken, textValue), FontToken, fontValue);
        ReplaceOtherToken(TextToken, FontToken, rest, fontValue);
        ReplaceToken(TextToken, ReplaceAll(rest, FontToken, fontValue), textValue);
      } else {
        assert t == FontToken + rest;
        ReplaceOtherToken(FontToken, TextToken, rest, textValue);
        ReplaceToken(FontToken, ReplaceAll(rest, TextToken, textValue), fontValue);
        ReplaceToken(FontToken, rest, fontValue);
        ReplaceSkipsBraceFree(fontValue, ReplaceAll(rest, FontToken, fontValue), TextToken, textValue);
      }
    } else {
      var c, rest := [t[0]], t[1..];
      assert t == c + rest;
      TwoStepIsSubstitution(rest, textValue, fontValue);
      ReplaceSkipsBraceFree(c, rest, TextToken, textValue);
      ReplaceSkipsBraceFree(c, ReplaceAll(rest, TextToken, textValue), FontToken, fontValue);
      ReplaceSkipsBraceFree(c, rest, FontToken, fontValue);
      ReplaceSkipsBraceFree(c, ReplaceAll(rest, FontToken, fontValue), TextToken, textValue);
    }
  }

  /**
   * If every brace of the request template belongs to a `{text}` or `{font}`
   * token, the resolved URI is the one-pass substitution of the encoded
   * values, holds no brace and so no placeholder, and would be the same if
   * `{font}` were substituted first.
   */
  lemma ResolvedRequestIsSubstitution(request: string, text: string, font: string)
    requires BracesOnlyInTokens(request)
    ensures var uri := ResolvedRequest(request, text, font);
      uri == Substitute(request, FormEncode(text), FormEncode(font)) &&
      IsBraceFree(uri) && !Contains(uri, TextToken) && !Contains(uri, FontToken) &&
      uri == ReplaceGetParam(ReplaceGetParam(request, FontToken, font), TextToken, text)
  {
    FormEncodeBraceFree(text);
    FormEncodeBraceFree(font);
    TwoStepIsSubstitution(request, FormEncode(text), FormEncode(font));
    var uri := ResolvedRequest(request, text, font);
    BraceFreeHasNoToken(uri, TextToken);
    BraceFreeHasNoToken(uri, FontToken);
  }

  /**
   * The precondition above is needed: in `{{text}}` with text `font`, the
   * first substitution makes a `{font}` that the second one then replaces,
   * so the URI holds the encoded font where the text belonged.
   */
  lemma NestedPlaceholderIsSubstitutedAgain(font: string)
    ensures !BracesOnlyInTokens("{{text}}")
    ensures ResolvedRequest("{{text}}", "font", font) == FormEncode(font)
  {
    NestedTemplateRejected();
    NestedFirstStep("font");
    FontUnchanged();
    assert "{{text}}" == "{" + TextToken + "}";
    assert "{" + "font" + "}" == [] + FontToken;
    ReplaceTrailingToken([], FontToken, FormEncode(font));
  }

  /** In `{{text}}` the first `{` starts neither token. */
  lemma NestedTemplateRejected()
    ensures !BracesOnlyInTokens("{{text}}")
  {
    var t := "{{text}}";
    assert t[1] != TextToken[1] && t[1] != FontToken[1];
    assert !(TextToken <= t) && !(FontToken <= t);
  }

  /** `{text}` inside one more pair of braces: only the inner token is replaced. */
  lemma NestedFirstStep(e: string)
    ensures ReplaceAll("{" + TextToken + "}", TextToken, e) == "{" + e + "}"
  {
    var t := "{" + TextToken + "}";
    assert t[1] != TextToken[1];
    assert t == ['{'] + (TextToken + "}");
    ReplaceSkipsText('{', TextToken + "}", TextToken, e);
    ReplaceToken(TextToken, "}", e);
    ReplaceSkipsBraceFree("}", [], TextToken, e);
    assert "}" + [] == "}";
  }

  lemma FontUnchanged()
    ensures FormEncode("font") == "font"
  {
    FormEncodeIdentity("font");
  }

  lemma DefaultFontUnchanged()
    ensures FormEncode(DefaultFont) == DefaultFont
  {
    FormEncodeIdentity(DefaultFont);
  }

  lemma HelloUnchanged()
    ensures FormEncode("Hello") == "Hello"
  {
    FormEncodeIdentity("Hello");
  }

  /**
   * replaceGetParam with an empty or absent search string returns the URI
   * unchanged.
   */
  lemma ReplaceGetParamNoOp(uri: string, search: string, replacement: string)
    requires |search| == 0 || !Contains(uri, search)
    ensures ReplaceGetParam(uri, search, replacement) == uri
  {
    ReplaceNoOp(uri, search, FormEncode(replacement));
  }

  /**
   * replaceGetParam cuts the URI at the leftmost non-overlapping occurrences
   * of the search string and joins the pieces with the encoded value, which
   * decodes back to the replacement; the text before the first occurrence is
   * kept as a prefix.
   */
  lemma ReplaceGetParamSplitJoin(uri: string, search: string, replacement: string)
    requires |search| > 0
    ensures var enc, ps := FormEncode(replacement), Split(uri, search);
      var r := ReplaceGetParam(uri, search, replacement);
      r == Join(ps, enc) && FormDecode(enc) == Some(replacement) &&
      |r| == |uri| + Count(uri, search) * (|enc| - |search|) &&
      ps[0] <= r
  {
    var enc := FormEncode(replacement);
    ReplaceAllSplitJoin(uri, search, enc);
    ReplaceKeepsPrefix(uri, search, enc);
    FormDecodeIff(enc, replacement);
  }

  /** The fixed text of the default template before `{text}`, and its middle part. */
  lemma DefaultRequestFixedParts()
    ensures '{' !in "https://devops.datenkollektiv.de" + "/renderBannerTxt?text="
    ensures '{' !in "&font="
  {
    assert '{' !in "https://devops.datenkollektiv.de";
    assert '{' !in "/renderBannerTxt?text=";
  }

  /** A token at the very end, after brace-free text, is replaced. */
  lemma ReplaceTrailingToken(front: string, tok: string, e: string)
    requires |tok| > 0 && tok[0] == '{' && '{' !in front
    ensures ReplaceAll(front + tok, tok, e) == front + e
  {
    ReplaceSkipsBraceFree(front, tok, tok, e);
    assert tok + [] == tok;
    ReplaceToken(tok, [], e);
    assert e + [] == e;
  }

  /** `{font}` on its own holds no `{text}`. */
  lemma FontTokenHasNoTextToken(e: string)
    ensures ReplaceAll(FontToken, TextToken, e) == FontToken
  {
    assert FontToken + [] == FontToken;
    ReplaceOtherToken(FontToken, TextToken, [], e);
  }

  /** The first step on a template of the default's shape. */
  lemma TwoTokenTextStep(head: string, mid: string, et: string)
    requires '{' !in head && '{' !in mid
    ensures ReplaceAll(head + TextToken + mid + FontToken, TextToken, et) == (head + et + mid) + FontToken
  {
    assert head + TextToken + mid + FontToken == head + (TextToken + (mid + FontToken));
    ReplaceSkipsBraceFree(head, TextToken + (mid + FontToken), TextToken, et);
    ReplaceToken(TextToken, mid + FontToken, et);
    ReplaceSkipsBraceFree(mid, FontToken, TextToken, et);
    FontTokenHasNoTextToken(et);
  }

  /**
   * A template of the default's shape, fixed text around one `{text}` and one
   * `{font}` with no other brace, resolves to the fixed text with the two
   * encoded values in the places of the tokens.
   */
  lemma TwoTokenTemplate(head: string, mid: string, text: string, font: string)
    requires '{' !in head && '{' !in mid
    ensures ResolvedRequest(head + TextToken + mid + FontToken, text, font) ==
      head + FormEncode(text) + mid + FormEncode(font)
  {
    var et := FormEncode(text);
    FormEncodeBraceFree(text);
    TwoTokenTextStep(head, mid, et);
    assert '{' !in head + et + mid;
    ReplaceTrailingToken(head + et + mid, FontToken, FormEncode(font));
  }

  /** The default template resolves to its fixed text with the two encoded values. */
  lemma DefaultRequestResolves(text: string, font: string)
    ensures ResolvedRequest(DefaultRequest, text, font) ==
      "https://devops.datenkollektiv.de" + "/renderBannerTxt?text=" + FormEncode(text) + "&font=" + FormEncode(font)
  {
    DefaultRequestFixedParts();
    TwoTokenTemplate("https://devops.datenkollektiv.de" + "/renderBannerTxt?text=", "&font=", text, font);
  }

  lemma HelloUrlPieces()
    ensures "https://devops.datenkollektiv.de/renderBannerTxt?text=Hello&font=standard" ==
      "https://devops.datenkollektiv.de" + "/renderBannerTxt?text=" + "Hello" + "&font=" + "standard"
  {
  }

  /** The default template with text `Hello` and the default font. */
  lemma DefaultRequestWithHello()
    ensures ResolvedRequest(DefaultRequest, "Hello", DefaultFont) ==
      "https://devops.datenkollektiv.de/renderBannerTxt?text=Hello&font=standard"
  {
    DefaultRequestResolves("Hello", DefaultFont);
    HelloUnchanged();
    DefaultFontUnchanged();
    HelloUrlPieces();
  }

  /**
   * `execute`, lines 96 to 98: start from the request template, substitute
   * `{text}`, then `{font}`.
   */
  method ResolveRequest(request: string, text: string, font: string) returns (uri: string)
    ensures uri == ResolvedRequest(request, text, font)
    ensures BracesOnlyInTokens(request) ==>
      uri == Substitute(request, FormEncode(text), FormEncode(font)) &&
      !Contains(uri, TextToken) && !Contains(uri, FontToken)
  {
    uri := request;
    uri := ReplaceGetParam(uri, TextToken, text);
    uri := ReplaceGetParam(uri, FontToken, font);
    if BracesOnlyInTokens(request) {
      ResolvedRequestIsSubstitution(request, text, font);
    }
  }
}
