/**
 Building the candidate list from an Accept-Language value: the helper
 `getSelectableLangugaes` of the negotiation handler. Each comma-separated
 token is split at `;`, its locale is cut to two lower-case characters, its
 weight is read from the text after the first `;`, and the pair is kept only
 when the locale is supported.
 */
module Candidates {
  import opened Wrappers
  import opened JsStrings
  import opened JsNumbers

  /** The handler's `supportedLanguages`. */
  const SupportedLanguages: seq<string> := ["en", "es"]

  /** The handler's `defaultLanguage`. */
  const DefaultLanguage: string := "en"

  /** One `{locale, weight}` object pushed onto `selectableLanguages`. */
  datatype Candidate = Candidate(locale: string, weight: Number)

  predicate IsSupported(locale: string)
  {
    locale in SupportedLanguages
  }

  /** `locale.toLowerCase().substring(0, 2)`: the first two characters, lower-cased. */
  function SanitizeLocale(locale: string): (r: string)
    ensures |r| == if |locale| < 2 then |locale| else 2
    ensures forall k :: 0 <= k < |r| ==> r[k] == LowerChar(locale[k])
  {
    Substring(ToLowerCase(locale), 0, 2)
  }

  /**
   The weight given the text between the first and second `;` of a token
   (`None` when the token has no `;`): 1.0 unless that text is non-empty, and
   otherwise `parseFloat` of it from its third character on, with NaN and zero
   read as 0.0.
   */
  function SanitizeWeight(weight: Option<string>): Number
  {
    if weight.Some? && weight.value != "" then OrZero(ParseFloat(SubstringFrom(weight.value, 2)))
    else Finite(1.0)
  }

  /** The text of a token before its first `;`. */
  function LocalePart(language: string): string
  {
    Split(language, ';')[0]
  }

  /** The `{locale, weight}` pair one comma-separated token describes, before filtering. */
  function TokenCandidate(language: string): (c: Candidate)
    ensures c.locale == SanitizeLocale(language[..IndexOf(language, ';')])
  {
    SplitHead(language, ';');
    var languageData := Split(language, ';');
    var weight := if |languageData| > 1 then Some(languageData[1]) else None;
    Candidate(SanitizeLocale(languageData[0]), SanitizeWeight(weight))
  }

  /**
   The pair a token describes, read off by position: the locale is the
   sanitized text before the first `;`; the weight is 1.0 when there is no `;`
   or the text between the first and second `;` is empty, and otherwise
   `parseFloat` of that text from its third character on, or 0.0.
   */
  lemma TokenCandidateParts(language: string)
    ensures var i := IndexOf(language, ';');
      && TokenCandidate(language).locale == SanitizeLocale(language[..i])
      && (i == |language| ==> TokenCandidate(language).weight == Finite(1.0))
      && (i < |language| ==>
            var rest := language[i + 1..];
            var w := rest[..IndexOf(rest, ';')];
            TokenCandidate(language).weight ==
              if w == "" then Finite(1.0) else OrZero(ParseFloat(SubstringFrom(w, 2))))
  {
    var i := IndexOf(language, ';');
    var languageData := Split(language, ';');
    SplitHead(language, ';');
    assert languageData[0] == language[..i];
    if i < |language| {
      var rest := language[i + 1..];
      var w := rest[..IndexOf(rest, ';')];
      SplitHead(rest, ';');
      assert languageData[1] == w;
      assert TokenCandidate(language).weight == SanitizeWeight(Some(w));
    } else {
      assert |languageData| == 1;
    }
  }

  /**
   A non-empty weight part gives 0.0 exactly when `parseFloat` of it from its
   third character is NaN or zero, and the parsed number otherwise.
   */
  lemma WeightOfPart(w: string)
    requires w != ""
    ensures var parsed := ParseFloat(SubstringFrom(w, 2));
      && (SanitizeWeight(Some(w)) == Finite(0.0) <==> parsed.None? || parsed == Some(Finite(0.0)))
      && (SanitizeWeight(Some(w)) != Finite(0.0) ==> parsed == Some(SanitizeWeight(Some(w))))
  {
    var parsed := ParseFloat(SubstringFrom(w, 2));
    assert SanitizeWeight(Some(w)) == OrZero(parsed);
  }

  /** Whether a token's candidate is pushed: this looks at the locale part only, never at the weight. */
  predicate IsKept(language: string)
  {
    IsSupported(SanitizeLocale(LocalePart(language)))
  }

  /** The candidates `getSelectableLangugaes` returns for the tokens `languages`. */
  function Selectable(languages: seq<string>): seq<Candidate>
  {
    if languages == [] then []
    else
      var last := languages[|languages| - 1];
      Selectable(languages[..|languages| - 1]) + (if IsKept(last) then [TokenCandidate(last)] else [])
  }

  /** The positions, in increasing order, of the tokens whose candidate is kept. */
  ghost function KeptPositions(languages: seq<string>): seq<nat>
  {
    if languages == [] then []
    else
      var n := |languages| - 1;
      KeptPositions(languages[..n]) + (if IsKept(languages[n]) then [n] else [])
  }

  /**
   `getSelectableLangugaes`: for each token, split it at `;`, sanitize the
   locale, start the weight at 1.0 and overwrite it when a weight part is
   present, then push the pair when the locale is supported.
   */
  method GetSelectableLanguages(languages: seq<string>) returns (selectableLanguages: seq<Candidate>)
    ensures selectableLanguages == Selectable(languages)
  {
    selectableLanguages := [];
    for i := 0 to |languages|
      invariant selectableLanguages == Selectable(languages[..i])
    {
      var language := languages[i];
      var languageData := Split(language, ';');
      var locale := languageData[0];
      var weight := if |languageData| > 1 then Some(languageData[1]) else None;

      var sanitizedLocale := SanitizeLocale(locale);
      var sanitizedWeight := Finite(1.0);
      if weight.Some? && weight.value != "" {
        sanitizedWeight := OrZero(ParseFloat(SubstringFrom(weight.value, 2)));
      }

      if sanitizedLocale in SupportedLanguages {
        selectableLanguages := selectableLanguages + [Candidate(sanitizedLocale, sanitizedWeight)];
      }
      assert languages[..i + 1][..i] == languages[..i];
    }
    assert languages[..|languages|] == languages;
  }

  /** The kept positions are increasing positions of `languages`, exactly those of supported tokens. */
  lemma {:induction false} KeptPositionsAreSupported(languages: seq<string>)
    ensures var kept := KeptPositions(languages);
      && (forall k :: 0 <= k < |kept| ==> kept[k] < |languages|)
      && (forall k, l :: 0 <= k < l < |kept| ==> kept[k] < kept[l])
      && (forall i :: 0 <= i < |languages| ==>
            (i in kept <==> IsKept(languages[i])))
  {
    if languages != [] {
      var n := |languages| - 1;
      KeptPositionsAreSupported(languages[..n]);
      assert forall i :: 0 <= i < n ==> languages[..n][i] == languages[i];
    }
  }

  /** The `k`-th candidate comes from the token at the `k`-th kept position. */
  lemma {:induction false} SelectableAtKeptPositions(languages: seq<string>)
    ensures var kept := KeptPositions(languages);
      && |Selectable(languages)| == |kept|
      && (forall k :: 0 <= k < |kept| ==>
            kept[k] < |languages| && Selectable(languages)[k] == TokenCandidate(languages[kept[k]]))
  {
    if languages != [] {
      var n := |languages| - 1;
      SelectableAtKeptPositions(languages[..n]);
      var kept' := KeptPositions(languages[..n]);
      assert forall k :: 0 <= k < |kept'| ==> languages[..n][kept'[k]] == languages[kept'[k]];
    }
  }

  /**
   The candidate list keeps exactly the tokens whose sanitized locale is
   supported, each as `TokenCandidate` of it, in input order.
   */
  lemma {:induction false} SelectableIsFilter(languages: seq<string>)
    ensures var kept := KeptPositions(languages);
      && |Selectable(languages)| == |kept|
      && (forall k :: 0 <= k < |kept| ==>
            kept[k] < |languages| && Selectable(languages)[k] == TokenCandidate(languages[kept[k]]))
      && (forall k, l :: 0 <= k < l < |kept| ==> kept[k] < kept[l])
      && (forall i :: 0 <= i < |languages| ==>
            (i in kept <==> IsKept(languages[i])))
  {
    KeptPositionsAreSupported(languages);
    SelectableAtKeptPositions(languages);
  }

  /** Every candidate's locale is supported, and there are no more candidates than tokens. */
  lemma {:induction false} SelectableSupported(languages: seq<string>)
    ensures |Selectable(languages)| <= |languages|
    ensures forall c :: c in Selectable(languages) ==> IsSupported(c.locale)
  {
    if languages != [] {
      SelectableSupported(languages[..|languages| - 1]);
    }
  }

  lemma LowerCharIs(c: char, lower: char)
    requires 'a' <= lower <= 'z'
    ensures LowerChar(c) == lower <==> c == lower || c as int == lower as int - 32
  {
  }

  /**
   A locale is kept exactly when it starts with `e` or `E` followed by one of
   `n`, `N`, `s`, `S`; nothing is trimmed, so ` es` is dropped.
   */
  lemma SanitizedLocaleSupported(locale: string)
    ensures IsSupported(SanitizeLocale(locale)) <==>
      && |locale| >= 2
      && (locale[0] == 'e' || locale[0] == 'E')
      && (locale[1] == 'n' || locale[1] == 'N' || locale[1] == 's' || locale[1] == 'S')
  {
    var r := SanitizeLocale(locale);
    if |locale| >= 2 {
      LowerCharIs(locale[0], 'e');
      LowerCharIs(locale[1], 'n');
      LowerCharIs(locale[1], 's');
      assert r == [LowerChar(locale[0]), LowerChar(locale[1])];
    }
  }

  /** A token with one `;` is its locale part and its weight part. */
  lemma TokenInTwoParts(locale: string, w: string)
    requires ';' !in locale && ';' !in w
    ensures TokenCandidate(locale + ";" + w) == Candidate(SanitizeLocale(locale), SanitizeWeight(Some(w)))
  {
    assert locale + ";" + w == locale + [';'] + w;
    SplitAtFirstSeparator(locale, w, ';');
    SplitWithoutSeparator(w, ';');
  }

  /** A token without `;` has weight 1.0. */
  lemma TokenWithoutWeight(language: string)
    requires ';' !in language
    ensures TokenCandidate(language) == Candidate(SanitizeLocale(language), Finite(1.0))
  {
    SplitWithoutSeparator(language, ';');
  }

  /** A token whose weight part is empty (`en;` or `en;;q=0.5`) has weight 1.0. */
  lemma TokenWithEmptyWeight(locale: string, rest: string)
    requires ';' !in locale
    requires rest == [] || rest[0] == ';'
    ensures TokenCandidate(locale + ";" + rest) == Candidate(SanitizeLocale(locale), Finite(1.0))
  {
    var token := locale + ";" + rest;
    assert token == locale + [';'] + rest;
    SplitAtFirstSeparator(locale, rest, ';');
    if rest == [] {
      SplitWithoutSeparator(rest, ';');
    } else {
      assert rest == "" + [';'] + rest[1..];
      SplitAtFirstSeparator("", rest[1..], ';');
    }
    assert Split(token, ';')[1] == "";
  }

  /** The weight part `xxa.b` gives weight `a.b`, whatever its first two characters. */
  lemma WeightOfDecimal(prefix: string, a: string, b: string)
    requires |prefix| == 2 && a != [] && AllDigits(a) && AllDigits(b)
    ensures SanitizeWeight(Some(prefix + a + "." + b)) == Finite(DecimalFraction(a, b))
  {
    var w := prefix + a + "." + b;
    assert SubstringFrom(w, 2) == a + "." + b + "";
    ParseFloatDecimal(a, b, "");
  }

  /**
   A quality value `a.b` after the first `;` is the weight, whatever the two
   characters before it are: `q=` is not checked.
   */
  lemma TokenWithDecimalWeight(locale: string, prefix: string, a: string, b: string)
    requires ';' !in locale && |prefix| == 2 && ';' !in prefix
    requires a != [] && AllDigits(a) && AllDigits(b)
    ensures TokenCandidate(locale + ";" + prefix + a + "." + b)
         == Candidate(SanitizeLocale(locale), Finite(DecimalFraction(a, b)))
  {
    var w := prefix + a + "." + b;
    assert ';' !in w by {
      assert forall k :: 0 <= k < |a| ==> IsDigit(a[k]);
      assert forall k :: 0 <= k < |b| ==> IsDigit(b[k]);
      assert w == prefix + (a + "." + b);
    }
    assert locale + ";" + prefix + a + "." + b == locale + ";" + w;
    TokenInTwoParts(locale, w);
    WeightOfDecimal(prefix, a, b);
  }

  /**
   A weight part with no number after its first two characters (`q=NaN`, `q=`)
   gives weight 0.0, and the token is still a candidate when its locale is
   supported.
   */
  lemma TokenWithUnparsableWeight(locale: string, w: string)
    requires ';' !in locale && ';' !in w && w != []
    requires ParseFloat(SubstringFrom(w, 2)).None?
    ensures TokenCandidate(locale + ";" + w) == Candidate(SanitizeLocale(locale), Finite(0.0))
  {
    TokenInTwoParts(locale, w);
    WeightOfUnparsable(w);
  }

  lemma WeightOfUnparsable(w: string)
    requires w != [] && ParseFloat(SubstringFrom(w, 2)).None?
    ensures SanitizeWeight(Some(w)) == Finite(0.0)
  {
    var parsed := ParseFloat(SubstringFrom(w, 2));
    assert OrZero(parsed) == Finite(0.0);
  }

}
