/**
 The viewer-request handler: when the request carries a non-empty
 `Accept-Language` header, it picks the language to serve and writes it to
 `X-Accept-Language`; the request is then passed on.
 */
module Negotiation {
  import opened JsStrings
  import opened Candidates
  import opened WeightSort

  /** The handler's `acceptLanguage`. */
  const AcceptLanguage: string := "Accept-Language"

  /** The handler's `customHeaderName`. */
  const CustomHeaderName: string := "X-Accept-Language"

  /** The comma-separated tokens of an `Accept-Language` value. */
  function Tokens(acceptLanguage: string): seq<string>
  {
    Split(acceptLanguage, ',')
  }

  /**
   The language selected for an `Accept-Language` value: the default when no
   token is kept, and otherwise the locale of the last candidate after a stable
   ascending sort by weight.
   */
  function NegotiatedLanguage(acceptLanguage: string): string
  {
    var selectableLanguages := Selectable(Tokens(acceptLanguage));
    if |selectableLanguages| > 0 then
      var sorted := SortByWeight(selectableLanguages);
      sorted[|sorted| - 1].locale
    else
      DefaultLanguage
  }

  /**
   The selected language, given the candidate list: this only unfolds
   `NegotiatedLanguage`, so that the concrete cases can name their candidates.
   */
  lemma NegotiatedFromSelectable(acceptLanguage: string, candidates: seq<Candidate>)
    requires Selectable(Tokens(acceptLanguage)) == candidates
    ensures NegotiatedLanguage(acceptLanguage) ==
      if candidates == [] then DefaultLanguage else SortByWeight(candidates)[|candidates| - 1].locale
  {
  }

  /**
   The body of the `if (headers[acceptLanguage])` branch: builds the
   candidates, sorts them in place and pops the last one.
   */
  method Negotiate(acceptLanguage: string) returns (selectedLanguage: string)
    ensures selectedLanguage == NegotiatedLanguage(acceptLanguage)
  {
    var selectableLanguages := GetSelectableLanguages(Split(acceptLanguage, ','));
    NegotiatedFromSelectable(acceptLanguage, selectableLanguages);
    selectedLanguage := DefaultLanguage;
    if |selectableLanguages| > 0 {
      var sorted := new Candidate[|selectableLanguages|](i requires 0 <= i < |selectableLanguages| => selectableLanguages[i]);
      assert sorted[..] == selectableLanguages;
      SortAscending(sorted);
      selectedLanguage := sorted[sorted.Length - 1].locale;
    }
  }

  /** The header value is truthy: present and not the empty string. */
  predicate HasAcceptLanguage(headers: map<string, string>)
  {
    AcceptLanguage in headers && headers[AcceptLanguage] != ""
  }

  /** The headers after the handler has run. */
  function HandledHeaders(headers: map<string, string>): map<string, string>
  {
    if HasAcceptLanguage(headers) then
      headers[CustomHeaderName := NegotiatedLanguage(headers[AcceptLanguage])]
    else
      headers
  }

  /** The request the handler receives and forwards; its headers are changed in place. */
  class Request {
    var headers: map<string, string>

    constructor(headers: map<string, string>)
      ensures this.headers == headers
    {
      this.headers := headers;
    }

    /**
     The handler: sets `X-Accept-Language` when `Accept-Language` is truthy,
     then hands the same request object to the callback.
     */
    method Handle() returns (forwarded: Request)
      modifies this
      ensures forwarded == this
      ensures headers == HandledHeaders(old(headers))
    {
      if AcceptLanguage in headers && headers[AcceptLanguage] != "" {
        var selectedLanguage := Negotiate(headers[AcceptLanguage]);
        headers := headers[CustomHeaderName := selectedLanguage];
      }
      forwarded := this;
    }
  }

  /**
   The handler writes only `X-Accept-Language`: every other header keeps its
   presence and value, and `X-Accept-Language` is set exactly when
   `Accept-Language` is truthy.
   */
  lemma HandledHeadersFrame(headers: map<string, string>)
    ensures forall key :: key != CustomHeaderName ==>
      (key in HandledHeaders(headers) <==> key in headers)
    ensures forall key :: key != CustomHeaderName && key in headers ==>
      HandledHeaders(headers)[key] == headers[key]
    ensures HasAcceptLanguage(headers) ==>
      CustomHeaderName in HandledHeaders(headers)
      && HandledHeaders(headers)[CustomHeaderName] == NegotiatedLanguage(headers[AcceptLanguage])
    ensures !HasAcceptLanguage(headers) ==> HandledHeaders(headers) == headers
  {
  }

  /** The selected language is always one of the supported languages. */
  lemma NegotiatedIsSupported(acceptLanguage: string)
    ensures IsSupported(NegotiatedLanguage(acceptLanguage))
  {
    var selectableLanguages := Selectable(Tokens(acceptLanguage));
    if |selectableLanguages| > 0 {
      var sorted := SortByWeight(selectableLanguages);
      SortByWeightPermutation(selectableLanguages);
      SelectableSupported(Tokens(acceptLanguage));
      assert sorted[|sorted| - 1] in multiset(selectableLanguages);
    }
  }

  /** With no token of a supported language, the default `en` is selected. */
  lemma NegotiatedDefault(acceptLanguage: string)
    requires forall i :: 0 <= i < |Tokens(acceptLanguage)| ==> !IsKept(Tokens(acceptLanguage)[i])
    ensures NegotiatedLanguage(acceptLanguage) == DefaultLanguage
  {
    var tokens := Tokens(acceptLanguage);
    SelectableIsFilter(tokens);
    var kept := KeptPositions(tokens);
    assert forall k :: 0 <= k < |kept| ==> kept[k] in kept;
  }

  /** The selected language is that of the latest candidate of greatest weight. */
  lemma NegotiatedFromCandidates(acceptLanguage: string) returns (k: nat)
    requires Selectable(Tokens(acceptLanguage)) != []
    ensures IsLatestMaximum(Selectable(Tokens(acceptLanguage)), k)
    ensures NegotiatedLanguage(acceptLanguage) == Selectable(Tokens(acceptLanguage))[k].locale
  {
    k := LastOfSortByWeight(Selectable(Tokens(acceptLanguage)));
  }

  /** No kept token weighs more than the token of the latest heaviest candidate. */
  lemma KeptTokensAtMost(tokens: seq<string>, k: nat)
    requires IsLatestMaximum(Selectable(tokens), k)
    ensures var kept := KeptPositions(tokens);
      && k < |kept| && kept[k] < |tokens|
      && forall j :: 0 <= j < |tokens| && IsKept(tokens[j]) ==>
           InOrder(TokenCandidate(tokens[j]), TokenCandidate(tokens[kept[k]]))
  {
    var kept := KeptPositions(tokens);
    SelectableIsFilter(tokens);
    var all := seq(|tokens|, j requires 0 <= j < |tokens| => TokenCandidate(tokens[j]));
    LatestMaximumAtPositions(Selectable(tokens), all, kept, k);
    assert forall j :: 0 <= j < |tokens| && IsKept(tokens[j]) ==> j in kept;
  }

  /** Every kept token after the token of the latest heaviest candidate weighs strictly less. */
  lemma LaterKeptTokensLess(tokens: seq<string>, k: nat)
    requires IsLatestMaximum(Selectable(tokens), k)
    ensures var kept := KeptPositions(tokens);
      && k < |kept| && kept[k] < |tokens|
      && forall j :: kept[k] < j < |tokens| && IsKept(tokens[j]) ==>
           !InOrder(TokenCandidate(tokens[kept[k]]), TokenCandidate(tokens[j]))
  {
    var kept := KeptPositions(tokens);
    SelectableIsFilter(tokens);
    var all := seq(|tokens|, j requires 0 <= j < |tokens| => TokenCandidate(tokens[j]));
    LatestMaximumAtPositions(Selectable(tokens), all, kept, k);
    assert forall j :: 0 <= j < |tokens| && IsKept(tokens[j]) ==> j in kept;
  }

  /**
   When some token is kept, the selected language is that of the latest kept
   token of greatest weight: no kept token weighs more, and every kept token
   after it weighs strictly less.
   */
  lemma NegotiatedIsLatestMaximum(acceptLanguage: string) returns (i: nat)
    requires exists j :: 0 <= j < |Tokens(acceptLanguage)| && IsKept(Tokens(acceptLanguage)[j])
    ensures var tokens := Tokens(acceptLanguage);
      && i < |tokens| && IsKept(tokens[i])
      && NegotiatedLanguage(acceptLanguage) == TokenCandidate(tokens[i]).locale
      && (forall j :: 0 <= j < |tokens| && IsKept(tokens[j]) ==>
            InOrder(TokenCandidate(tokens[j]), TokenCandidate(tokens[i])))
      && (forall j :: i < j < |tokens| && IsKept(tokens[j]) ==>
            !InOrder(TokenCandidate(tokens[i]), TokenCandidate(tokens[j])))
  {
    var tokens := Tokens(acceptLanguage);
    var kept := KeptPositions(tokens);
    SelectableIsFilter(tokens);
    var j0 :| 0 <= j0 < |tokens| && IsKept(tokens[j0]);
    assert j0 in kept;
    var k := NegotiatedFromCandidates(acceptLanguage);
    KeptTokensAtMost(tokens, k);
    LaterKeptTokensLess(tokens, k);
    i := kept[k];
    assert i in kept;
  }

}
