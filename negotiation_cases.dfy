/**
 The language the handler selects for the string header values of the
 handler's test table (the strings inside its one-element header arrays), and
 for the tie `en,es`, which the table does not contain.
 */
module NegotiationCases {
  import opened JsStrings
  import opened JsNumbers
  import opened Candidates
  import opened WeightSort
  import opened Negotiation

  lemma SelectableOfOne(t: string)
    ensures Selectable([t]) == if IsKept(t) then [TokenCandidate(t)] else []
  {
    assert [t][..0] == [];
  }

  lemma SelectableOfTwo(t: string, u: string)
    ensures Selectable([t, u]) ==
      (if IsKept(t) then [TokenCandidate(t)] else []) + (if IsKept(u) then [TokenCandidate(u)] else [])
  {
    assert [t, u][..1] == [t];
    SelectableOfOne(t);
  }

  lemma TokensOfTwo(t: string, u: string)
    requires ',' !in t && ',' !in u
    ensures Tokens(t + [','] + u) == [t, u]
  {
    SplitAtFirstSeparator(t, u, ',');
    SplitWithoutSeparator(u, ',');
  }

  /** Two tokens whose candidates are both kept. */
  lemma SelectableOfTwoKept(t: string, u: string, c: Candidate, d: Candidate)
    requires TokenCandidate(t) == c && TokenCandidate(u) == d
    requires IsSupported(c.locale) && IsSupported(d.locale)
    ensures Selectable([t, u]) == [c, d]
  {
    SelectableOfTwo(t, u);
  }

  lemma SortTwo(a: Candidate, b: Candidate)
    requires InOrder(a, b)
    ensures SortByWeight([a, b]) == [a, b]
  {
    assert [a, b][..1] == [a];
    assert [a][..0] == [];
  }

  lemma LowerLocales()
    ensures SanitizeLocale("en") == "en" && SanitizeLocale("es") == "es"
    ensures SanitizeLocale("EN-US") == "en" && SanitizeLocale("de") == "de"
  {
  }

  /** `en` selects `en`. */
  lemma EnSelectsEn()
    ensures NegotiatedLanguage("en") == "en"
  {
    SplitWithoutSeparator("en", ',');
    TokenWithoutWeight("en");
    LowerLocales();
    SelectableOfOne("en");
    NegotiatedFromSelectable("en", [Candidate("en", Finite(1.0))]);
  }

  /** `de` is not supported, so the default `en` is selected. */
  lemma DeSelectsDefault()
    ensures NegotiatedLanguage("de") == "en"
  {
    SplitWithoutSeparator("de", ',');
    TokenWithoutWeight("de");
    LowerLocales();
    SelectableOfOne("de");
    NegotiatedFromSelectable("de", []);
  }

  /** `EN-US` is cut to `en`. */
  lemma EnUsSelectsEn()
    ensures NegotiatedLanguage("EN-US") == "en"
  {
    SplitWithoutSeparator("EN-US", ',');
    TokenWithoutWeight("EN-US");
    LowerLocales();
    SelectableOfOne("EN-US");
    NegotiatedFromSelectable("EN-US", [Candidate("en", Finite(1.0))]);
  }

  lemma TokensOfWeightedEnThenEs()
    ensures Tokens("en;q=0.8,es") == ["en;q=0.8", "es"]
  {
    assert "en;q=0.8,es" == "en;q=0.8" + [','] + "es";
    TokensOfTwo("en;q=0.8", "es");
  }

  lemma PointEight()
    ensures DecimalFraction("0", "8") == 0.8
  {
    assert DigitsValue("0") == 0 && DigitsValue("8") == 8 && Pow10(1) == 10;
  }

  lemma WeightedEn()
    ensures TokenCandidate("en;q=0.8") == Candidate("en", Finite(0.8))
  {
    assert "en;q=0.8" == "en" + ";" + "q=" + "0" + "." + "8";
    TokenWithDecimalWeight("en", "q=", "0", "8");
    PointEight();
    LowerLocales();
  }

  lemma CandidatesOfWeightedEnThenEs()
    ensures Selectable(["en;q=0.8", "es"]) == [Candidate("en", Finite(0.8)), Candidate("es", Finite(1.0))]
  {
    WeightedEn();
    TokenWithoutWeight("es");
    LowerLocales();
    SelectableOfTwoKept("en;q=0.8", "es", Candidate("en", Finite(0.8)), Candidate("es", Finite(1.0)));
  }

  /** `en;q=0.8,es`: `es` has the default weight 1.0 and wins. */
  lemma WeightedEnThenEsSelectsEs()
    ensures NegotiatedLanguage("en;q=0.8,es") == "es"
  {
    var en, es := Candidate("en", Finite(0.8)), Candidate("es", Finite(1.0));
    TokensOfWeightedEnThenEs();
    CandidatesOfWeightedEnThenEs();
    SortTwo(en, es);
    NegotiatedFromSelectable("en;q=0.8,es", [en, es]);
  }

  /** `parseFloat` of text starting with `N`, such as `NaN`, is NaN. */
  lemma ParseFloatOfN(rest: string)
    requires rest != [] && rest[0] == 'N'
    ensures ParseFloat(rest).None?
  {
    assert TrimStart(rest) == rest;
    assert DropSign(rest) == rest;
    assert !StartsWithInfinity(rest) by {
      if |rest| >= 8 {
        assert rest[..8][0] == 'N';
      }
    }
    assert CountDigits(rest) == 0;
  }

  /** A weight part like `q=NaN` gives weight 0.0 after any locale. */
  lemma TokenWithNaNWeight(locale: string, prefix: string, rest: string)
    requires ';' !in locale && |prefix| == 2 && ';' !in prefix && ';' !in rest
    requires rest != [] && rest[0] == 'N'
    ensures TokenCandidate(locale + ";" + prefix + rest) == Candidate(SanitizeLocale(locale), Finite(0.0))
  {
    var w := prefix + rest;
    assert locale + ";" + prefix + rest == locale + ";" + w;
    assert SubstringFrom(w, 2) == rest;
    ParseFloatOfN(rest);
    TokenWithUnparsableWeight(locale, w);
  }

  lemma NaNWeightedEs()
    ensures TokenCandidate("es;q=NaN") == Candidate("es", Finite(0.0))
  {
    assert "es;q=NaN" == "es" + ";" + "q=" + "NaN";
    TokenWithNaNWeight("es", "q=", "NaN");
    LowerLocales();
  }

  /** `es;q=NaN`: the weight reads as 0.0, and `es` is still selected. */
  lemma NaNWeightKeepsEs()
    ensures NegotiatedLanguage("es;q=NaN") == "es"
  {
    SplitWithoutSeparator("es;q=NaN", ',');
    NaNWeightedEs();
    SelectableOfOne("es;q=NaN");
    NegotiatedFromSelectable("es;q=NaN", [Candidate("es", Finite(0.0))]);
  }

  lemma PointZeroOne()
    ensures DecimalFraction("0", "01") == 0.01
  {
    assert DigitsValue("0") == 0 && DigitsValue("01") == 1 && Pow10(2) == 100;
  }

  lemma WeightedEnPointZeroOne()
    ensures TokenCandidate("en;q=0.01") == Candidate("en", Finite(0.01))
  {
    assert "en;q=0.01" == "en" + ";" + "q=" + "0" + "." + "01";
    TokenWithDecimalWeight("en", "q=", "0", "01");
    PointZeroOne();
    LowerLocales();
  }

  lemma TokensOfNaNEsThenEn()
    ensures Tokens("es;q=NaN,en;q=0.01") == ["es;q=NaN", "en;q=0.01"]
  {
    assert "es;q=NaN,en;q=0.01" == "es;q=NaN" + [','] + "en;q=0.01";
    TokensOfTwo("es;q=NaN", "en;q=0.01");
  }

  lemma CandidatesOfNaNEsThenEn()
    ensures Selectable(["es;q=NaN", "en;q=0.01"]) == [Candidate("es", Finite(0.0)), Candidate("en", Finite(0.01))]
  {
    NaNWeightedEs();
    WeightedEnPointZeroOne();
    LowerLocales();
    SelectableOfTwoKept("es;q=NaN", "en;q=0.01", Candidate("es", Finite(0.0)), Candidate("en", Finite(0.01)));
  }

  /** `es;q=NaN,en;q=0.01`: the NaN weight reads as 0.0, below 0.01. */
  lemma NaNEsThenEnSelectsEn()
    ensures NegotiatedLanguage("es;q=NaN,en;q=0.01") == "en"
  {
    var es, en := Candidate("es", Finite(0.0)), Candidate("en", Finite(0.01));
    TokensOfNaNEsThenEn();
    CandidatesOfNaNEsThenEn();
    SortTwo(es, en);
    NegotiatedFromSelectable("es;q=NaN,en;q=0.01", [es, en]);
  }

  lemma TokensOfEnThenEs()
    ensures Tokens("en,es") == ["en", "es"]
  {
    assert "en,es" == "en" + [','] + "es";
    TokensOfTwo("en", "es");
  }

  lemma CandidatesOfEnThenEs()
    ensures Selectable(["en", "es"]) == [Candidate("en", Finite(1.0)), Candidate("es", Finite(1.0))]
  {
    TokenWithoutWeight("en");
    TokenWithoutWeight("es");
    LowerLocales();
    SelectableOfTwoKept("en", "es", Candidate("en", Finite(1.0)), Candidate("es", Finite(1.0)));
  }

  /** `en,es`: equal weights, and the later token wins. */
  lemma TieSelectsLater()
    ensures NegotiatedLanguage("en,es") == "es"
  {
    var en, es := Candidate("en", Finite(1.0)), Candidate("es", Finite(1.0));
    TokensOfEnThenEs();
    CandidatesOfEnThenEs();
    SortTwo(en, es);
    NegotiatedFromSelectable("en,es", [en, es]);
  }

  /** A single token without weight whose locale is supported selects that locale. */
  lemma SingleSupportedToken(t: string, locale: string)
    requires ',' !in t && ';' !in t
    requires SanitizeLocale(t) == locale && IsSupported(locale)
    ensures NegotiatedLanguage(t) == locale
  {
    SplitWithoutSeparator(t, ',');
    TokenWithoutWeight(t);
    SelectableOfOne(t);
    NegotiatedFromSelectable(t, [Candidate(locale, Finite(1.0))]);
  }

  /** `es` selects `es`. */
  lemma EsSelectsEs()
    ensures NegotiatedLanguage("es") == "es"
  {
    LowerLocales();
    SingleSupportedToken("es", "es");
  }

  lemma UpperLocales()
    ensures SanitizeLocale("EN") == "en" && SanitizeLocale("ES") == "es"
    ensures SanitizeLocale("ES-419") == "es"
  {
  }

  /** `EN` is lower-cased to `en`. */
  lemma UpperEnSelectsEn()
    ensures NegotiatedLanguage("EN") == "en"
  {
    UpperLocales();
    SingleSupportedToken("EN", "en");
  }

  /** `ES` is lower-cased to `es`. */
  lemma UpperEsSelectsEs()
    ensures NegotiatedLanguage("ES") == "es"
  {
    UpperLocales();
    SingleSupportedToken("ES", "es");
  }

  /** `ES-419` is cut to `es`. */
  lemma EsLatinAmericaSelectsEs()
    ensures NegotiatedLanguage("ES-419") == "es"
  {
    UpperLocales();
    SingleSupportedToken("ES-419", "es");
  }

  /** Two kept tokens whose candidates are in comparator order: the second is selected. */
  lemma TwoKeptTokens(t: string, u: string, c: Candidate, d: Candidate)
    requires ',' !in t && ',' !in u
    requires TokenCandidate(t) == c && TokenCandidate(u) == d
    requires IsSupported(c.locale) && IsSupported(d.locale) && InOrder(c, d)
    ensures NegotiatedLanguage(t + [','] + u) == d.locale
  {
    TokensOfTwo(t, u);
    SelectableOfTwoKept(t, u, c, d);
    SortTwo(c, d);
    NegotiatedFromSelectable(t + [','] + u, [c, d]);
  }

  /** An unsupported token followed by a kept one: the kept one is selected. */
  lemma UnkeptThenKept(t: string, u: string, d: Candidate)
    requires ',' !in t && ',' !in u
    requires !IsKept(t) && TokenCandidate(u) == d && IsSupported(d.locale)
    ensures NegotiatedLanguage(t + [','] + u) == d.locale
  {
    TokensOfTwo(t, u);
    SelectableOfTwo(t, u);
    NegotiatedFromSelectable(t + [','] + u, [d]);
    assert SortByWeight([d]) == [d] by {
      assert [d][..0] == [];
    }
  }

  lemma TokensOfThree(t: string, u: string, v: string)
    requires ',' !in t && ',' !in u && ',' !in v
    ensures Tokens(t + [','] + u + [','] + v) == [t, u, v]
  {
    assert t + [','] + u + [','] + v == t + [','] + (u + [','] + v);
    SplitAtFirstSeparator(t, u + [','] + v, ',');
    TokensOfTwo(u, v);
  }

  lemma SelectableOfUnkeptThenTwo(t: string, u: string, v: string)
    requires !IsKept(t)
    ensures Selectable([t, u, v]) == Selectable([u, v])
  {
    assert [t, u, v][..2] == [t, u];
    assert [u, v][..1] == [u];
    SelectableOfTwo(t, u);
    SelectableOfOne(u);
  }

  /** An unsupported token, then two kept ones in comparator order: the last is selected. */
  lemma UnkeptThenTwoKept(t: string, u: string, v: string, c: Candidate, d: Candidate)
    requires ',' !in t && ',' !in u && ',' !in v
    requires !IsKept(t) && TokenCandidate(u) == c && TokenCandidate(v) == d
    requires IsSupported(c.locale) && IsSupported(d.locale) && InOrder(c, d)
    ensures NegotiatedLanguage(t + [','] + u + [','] + v) == d.locale
  {
    TokensOfThree(t, u, v);
    SelectableOfUnkeptThenTwo(t, u, v);
    SelectableOfTwoKept(u, v, c, d);
    SortTwo(c, d);
    NegotiatedFromSelectable(t + [','] + u + [','] + v, [c, d]);
  }

  lemma PointTwo()
    ensures DecimalFraction("0", "2") == 0.2
  {
    assert DigitsValue("0") == 0 && DigitsValue("2") == 2 && Pow10(1) == 10;
  }

  lemma WeightedEs()
    ensures TokenCandidate("es;q=0.8") == Candidate("es", Finite(0.8))
  {
    assert "es;q=0.8" == "es" + ";" + "q=" + "0" + "." + "8";
    TokenWithDecimalWeight("es", "q=", "0", "8");
    PointEight();
    LowerLocales();
  }

  lemma WeightedEnPointTwo()
    ensures TokenCandidate("en;q=0.2") == Candidate("en", Finite(0.2))
  {
    assert "en;q=0.2" == "en" + ";" + "q=" + "0" + "." + "2";
    TokenWithDecimalWeight("en", "q=", "0", "2");
    PointTwo();
    LowerLocales();
  }

  lemma UnweightedEn()
    ensures TokenCandidate("en") == Candidate("en", Finite(1.0))
  {
    TokenWithoutWeight("en");
    LowerLocales();
  }

  lemma DeIsNotKept()
    ensures !IsKept("de")
  {
    SplitWithoutSeparator("de", ';');
    LowerLocales();
  }

  lemma HeaderOfWeightedEsThenEn()
    ensures "es;q=0.8,en" == "es;q=0.8" + [','] + "en"
    ensures ',' !in "es;q=0.8" && ',' !in "en"
  {
  }

  /** `es;q=0.8,en`: `en` has the default weight 1.0 and wins. */
  lemma WeightedEsThenEnSelectsEn()
    ensures NegotiatedLanguage("es;q=0.8,en") == "en"
  {
    var es, en := Candidate("es", Finite(0.8)), Candidate("en", Finite(1.0));
    WeightedEs();
    UnweightedEn();
    HeaderOfWeightedEsThenEn();
    TwoKeptTokens("es;q=0.8", "en", es, en);
  }

  lemma HeaderOfDeThenWeighted()
    ensures "de,en;q=0.8" == "de" + [','] + "en;q=0.8"
    ensures "de,es;q=0.8" == "de" + [','] + "es;q=0.8"
    ensures ',' !in "de" && ',' !in "en;q=0.8" && ',' !in "es;q=0.8"
  {
  }

  /** `de,en;q=0.8`: `de` is dropped and `en` is selected. */
  lemma DeThenWeightedEnSelectsEn()
    ensures NegotiatedLanguage("de,en;q=0.8") == "en"
  {
    WeightedEn();
    DeIsNotKept();
    HeaderOfDeThenWeighted();
    UnkeptThenKept("de", "en;q=0.8", Candidate("en", Finite(0.8)));
  }

  /** `de,es;q=0.8`: `de` is dropped and `es` is selected. */
  lemma DeThenWeightedEsSelectsEs()
    ensures NegotiatedLanguage("de,es;q=0.8") == "es"
  {
    WeightedEs();
    DeIsNotKept();
    HeaderOfDeThenWeighted();
    UnkeptThenKept("de", "es;q=0.8", Candidate("es", Finite(0.8)));
  }

  lemma HeaderOfThreeTokens()
    ensures "de,en;q=0.2,es;q=0.8" == "de" + [','] + "en;q=0.2" + [','] + "es;q=0.8"
    ensures ',' !in "de" && ',' !in "en;q=0.2" && ',' !in "es;q=0.8"
  {
  }

  /** `de,en;q=0.2,es;q=0.8`: `de` is dropped and `es` outweighs `en`. */
  lemma ThreeTokensSelectHeaviest()
    ensures NegotiatedLanguage("de,en;q=0.2,es;q=0.8") == "es"
  {
    var en, es := Candidate("en", Finite(0.2)), Candidate("es", Finite(0.8));
    WeightedEnPointTwo();
    WeightedEs();
    DeIsNotKept();
    HeaderOfThreeTokens();
    UnkeptThenTwoKept("de", "en;q=0.2", "es;q=0.8", en, es);
  }

  /** A single token that does not start with `e` or `E` selects the default. */
  lemma SingleUnsupportedToken(t: string)
    requires ',' !in t && ';' !in t && t != [] && t[0] != 'e' && t[0] != 'E'
    ensures NegotiatedLanguage(t) == DefaultLanguage
  {
    SplitWithoutSeparator(t, ',');
    SplitWithoutSeparator(t, ';');
    SanitizedLocaleSupported(t);
    SelectableOfOne(t);
    NegotiatedFromSelectable(t, []);
  }

  /** A token of letters and digits with no supported prefix selects the default. */
  lemma GarbageSelectsDefault()
    ensures NegotiatedLanguage("dhbeiyu292dfiue2") == "en"
  {
    SingleUnsupportedToken("dhbeiyu292dfiue2");
  }

  /** An empty `Accept-Language` is falsy: no `X-Accept-Language` is written. */
  lemma EmptyHeaderIsLeftAlone()
    ensures HandledHeaders(map[AcceptLanguage := ""]) == map[AcceptLanguage := ""]
    ensures CustomHeaderName !in HandledHeaders(map[AcceptLanguage := ""])
  {
  }

}
