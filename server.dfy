/**
  Server-side subprotocol negotiation: the selection of one subprotocol
  from the comma-separated `Sec-WebSocket-Protocol` request header, and
  the handshake callback's choice between a `400 Bad Request` rejection
  and an accepting response that names the selected subprotocol.
 */
module Server {
  import opened Wrappers
  import opened Text
  import opened Subprotocol

  // ---------------------------------------------------------------------
  // Candidates offered by the client
  // ---------------------------------------------------------------------

  /**
    The offered tokens: the header value split on `,`, each piece trimmed.
    There is one token per comma, plus one, and every token is free of
    commas and has no whitespace at its ends.
   */
  function Candidates(headerValue: string): (offers: seq<string>)
    ensures |offers| == Count(headerValue, ',') + 1
    ensures forall i :: 0 <= i < |offers| ==> ',' !in offers[i] && NoOuterWhitespace(offers[i])
  {
    var pieces := Split(headerValue, ',');
    SplitCount(headerValue, ',');
    assert forall i :: 0 <= i < |pieces| ==> ',' !in Trim(pieces[i]) by {
      forall i | 0 <= i < |pieces| {
        TrimKeepsAbsent(pieces[i], ',');
      }
    }
    seq(|pieces|, i requires 0 <= i < |pieces| => Trim(pieces[i]))
  }

  // ---------------------------------------------------------------------
  // Selection
  // ---------------------------------------------------------------------

  /** The parse of the first candidate that parses, if there is one. */
  function FirstParse(candidates: seq<string>): (r: Option<BlimpSubprotocol>)
    ensures r.Some? ==> r.value.version in SUPPORTED_VERSIONS
  {
    if candidates == [] then None
    else
      match Parse(candidates[0])
      case Ok(subprotocol) => Some(subprotocol)
      case Err(_) => FirstParse(candidates[1..])
  }

  /** Candidate `i` is the first one the parser accepts. */
  predicate FirstParsable(candidates: seq<string>, i: int)
  {
    && 0 <= i < |candidates|
    && Parse(candidates[i]).Ok?
    && forall j :: 0 <= j < i ==> Parse(candidates[j]).Err?
  }

  /** The first candidate that parses is selected, whatever comes after it. */
  lemma {:induction false} FirstParseSelectsFirst(candidates: seq<string>, i: int)
    requires FirstParsable(candidates, i)
    ensures FirstParse(candidates) == Some(Parse(candidates[i]).value)
  {
    if i > 0 {
      assert Parse(candidates[0]).Err?;
      var rest := candidates[1..];
      assert forall j :: 0 <= j < i - 1 ==> rest[j] == candidates[j + 1];
      FirstParseSelectsFirst(rest, i - 1);
    }
  }

  /** Conversely, a selected subprotocol is the parse of the first candidate that parses. */
  lemma {:induction false} FirstParseIsFirstParsable(candidates: seq<string>)
    requires FirstParse(candidates).Some?
    ensures exists i :: FirstParsable(candidates, i) && Parse(candidates[i]) == Ok(FirstParse(candidates).value)
  {
    if Parse(candidates[0]).Err? {
      var rest := candidates[1..];
      FirstParseIsFirstParsable(rest);
      var i :| FirstParsable(rest, i) && Parse(rest[i]) == Ok(FirstParse(rest).value);
      assert FirstParsable(candidates, i + 1) by {
        forall j | 0 <= j < i + 1 ensures Parse(candidates[j]).Err? {
          if j > 0 {
            assert candidates[j] == rest[j - 1];
          }
        }
      }
      assert Parse(candidates[i + 1]) == Ok(FirstParse(candidates).value);
    } else {
      assert FirstParsable(candidates, 0);
    }
  }

  /** The parser refuses every candidate. */
  predicate NoneParses(candidates: seq<string>)
  {
    forall i :: 0 <= i < |candidates| ==> Parse(candidates[i]).Err?
  }

  /** Nothing is selected exactly when no candidate parses. */
  lemma {:induction false} FirstParseNone(candidates: seq<string>)
    ensures FirstParse(candidates).None? <==> NoneParses(candidates)
  {
    if candidates != [] {
      var rest := candidates[1..];
      FirstParseNone(rest);
      assert forall i :: 1 <= i < |candidates| ==> candidates[i] == rest[i - 1];
    }
  }

  /**
    `get_subprotocol`: `None` when the request has no protocol header, or
    one that is not text (both are `None` here); otherwise the first offered
    token that parses.
   */
  function GetSubprotocol(header: Option<string>): (r: Option<BlimpSubprotocol>)
    ensures header.None? ==> r.None?
    ensures r.Some? ==> r.value.version in SUPPORTED_VERSIONS
  {
    match header
    case None => None
    case Some(value) => FirstParse(Candidates(value))
  }

  // ---------------------------------------------------------------------
  // The handshake callback
  // ---------------------------------------------------------------------

  const BAD_REQUEST: nat := 400
  const REJECTION_BODY: string := "No provided valid subprotocols"

  /**
    What the header callback answers: a rejection, or the upgrade response
    with its `Sec-WebSocket-Protocol` header set, together with the
    subprotocol handed on to the new session.
   */
  datatype HandshakeResponse =
    | Rejected(status: nat, body: string)
    | Accepted(protocolHeader: string, selected: BlimpSubprotocol)

  /**
    A character that `HeaderValue::from_str` accepts: tab, or anything
    from space upwards except DEL.
   */
  predicate IsHeaderChar(c: char)
  {
    c == '\t' || (' ' <= c && c as int != 0x7F)
  }

  predicate IsHeaderText(s: string)
  {
    forall i :: 0 <= i < |s| ==> IsHeaderChar(s[i])
  }

  lemma HeaderTextConcat(a: string, b: string)
    requires IsHeaderText(a) && IsHeaderText(b)
    ensures IsHeaderText(a + b)
  {
    assert forall i :: |a| <= i < |a + b| ==> (a + b)[i] == b[i - |a|];
  }

  /** A canonical token is valid header text, so building the header value cannot fail. */
  lemma FormatIsHeaderText(p: BlimpSubprotocol)
    ensures IsHeaderText(Format(p))
  {
    var digits := Decimal(p.version);
    var name := FlavourName(p.flavour);
    assert IsHeaderText(digits);
    assert IsHeaderText(name);
    var s := PROTOCOL_ORGANIZATION + "." + PROTOCOL_PROJECT + ".v";
    assert IsHeaderText(s);
    HeaderTextConcat(s, digits);
    HeaderTextConcat(s + digits, ".");
    HeaderTextConcat(s + digits + ".", name);
  }

  /** The header callback of `run`. */
  function HandleHandshake(header: Option<string>): (res: HandshakeResponse)
    ensures res.Rejected? <==> GetSubprotocol(header).None?
    ensures res.Rejected? ==> res.status == BAD_REQUEST && res.body == REJECTION_BODY
    ensures res.Accepted? ==> GetSubprotocol(header) == Some(res.selected)
    ensures res.Accepted? ==> res.protocolHeader == Format(res.selected)
    ensures res.Accepted? ==> IsHeaderText(res.protocolHeader)
    ensures res.Accepted? ==> Parse(res.protocolHeader) == Ok(res.selected)
  {
    match GetSubprotocol(header)
    case None => Rejected(BAD_REQUEST, REJECTION_BODY)
    case Some(protocol) =>
      FormatIsHeaderText(protocol);
      ParseFormat(protocol);
      Accepted(Format(protocol), protocol)
  }

  /** A request without a usable protocol header is rejected with 400. */
  lemma MissingHeaderIsRejected()
    ensures HandleHandshake(None) == Rejected(BAD_REQUEST, REJECTION_BODY)
  {
  }

  /**
    The accepted response names exactly the first offered token that
    parses; every token before it was refused by the parser.
   */
  lemma {:induction false} AcceptedIsFirstParsableOffer(headerValue: string)
    requires HandleHandshake(Some(headerValue)).Accepted?
    ensures var res := HandleHandshake(Some(headerValue));
            var offers := Candidates(headerValue);
            exists i :: FirstParsable(offers, i) && Parse(offers[i]) == Ok(res.selected)
  {
    FirstParseIsFirstParsable(Candidates(headerValue));
  }

  /** A rejection happens exactly when no offered token parses. */
  lemma {:induction false} RejectedIffNoOfferParses(headerValue: string)
    ensures HandleHandshake(Some(headerValue)).Rejected? <==> NoneParses(Candidates(headerValue))
  {
    var offers := Candidates(headerValue);
    FirstParseNone(offers);
    assert GetSubprotocol(Some(headerValue)) == FirstParse(offers);
  }

  // ---------------------------------------------------------------------
  // The negotiation the crate's tests perform
  // ---------------------------------------------------------------------

  /** A single offer without commas or outer whitespace is the only candidate. */
  lemma SingleCandidate(offer: string)
    requires ',' !in offer && NoOuterWhitespace(offer)
    ensures Candidates(offer) == [offer]
  {
    SplitNoSeparator(offer, ',');
    TrimKeepsTrimmed(offer);
    assert |Candidates(offer)| == 1 && Candidates(offer)[0] == Trim(offer);
  }

  /**
    For any header, offer `i` is the `i`-th comma-separated piece, trimmed,
    in header order: every header is the join of its pieces (`JoinSplit`).
   */
  lemma CandidatesOfJoin(ps: seq<string>)
    requires |ps| >= 1
    requires forall i :: 0 <= i < |ps| ==> ',' !in ps[i]
    ensures Candidates(Join(ps, ',')) == seq(|ps|, i requires 0 <= i < |ps| => Trim(ps[i]))
  {
    SplitJoin(ps, ',');
  }

  /** Two comma-free pieces give two candidates, each trimmed. */
  lemma CandidatesOfTwo(a: string, b: string)
    requires ',' !in a && ',' !in b
    ensures Candidates(a + "," + b) == [Trim(a), Trim(b)]
  {
    assert [a, b][1..] == [b];
    assert Join([a, b], ',') == a + "," + b;
    SplitJoin([a, b], ',');
    var v := a + "," + b;
    assert Split(v, ',') == [a, b];
    assert |Candidates(v)| == 2 && Candidates(v)[0] == Trim(a) && Candidates(v)[1] == Trim(b);
  }

  /** A space after the comma is trimmed away. */
  lemma TrimLeadingSpace(t: string)
    requires NoOuterWhitespace(t) && t != []
    ensures Trim(" " + t) == t
  {
    assert (" " + t)[1..] == t;
    assert TrimStart(" " + t) == TrimStart(t);
    TrimKeepsTrimmed(t);
  }

  /** A header listing two tokens separated by a comma and a space offers those two tokens. */
  lemma CandidatesOfCommaSpace(a: string, b: string)
    requires ',' !in a && ',' !in b && b != []
    requires NoOuterWhitespace(a) && NoOuterWhitespace(b)
    ensures Candidates(a + ", " + b) == [a, b]
  {
    assert a + ", " + b == a + "," + (" " + b);
    CandidatesOfTwo(a, " " + b);
    TrimKeepsTrimmed(a);
    TrimLeadingSpace(b);
  }

  /** The two tokens the crate's negotiation test offers. */
  lemma TestOffersAreTokens(a: string, b: string)
    requires a == "spacecoffee.blimp.v2137.json" && b == "spacecoffee.blimp.v1.postcard"
    ensures ',' !in a && ',' !in b && b != []
    ensures NoOuterWhitespace(a) && NoOuterWhitespace(b)
  {
  }

  lemma CandidatesExample()
    ensures Candidates("spacecoffee.blimp.v2137.json" + ", " + "spacecoffee.blimp.v1.postcard")
         == ["spacecoffee.blimp.v2137.json", "spacecoffee.blimp.v1.postcard"]
  {
    var a, b := "spacecoffee.blimp.v2137.json", "spacecoffee.blimp.v1.postcard";
    TestOffersAreTokens(a, b);
    CandidatesOfCommaSpace(a, b);
  }

  /**
    A header of two tokens whose first does not parse and whose second does
    is answered with the second one's canonical form.
   */
  lemma SecondOfferAccepted(a: string, b: string, p: BlimpSubprotocol)
    requires ',' !in a && ',' !in b && b != []
    requires NoOuterWhitespace(a) && NoOuterWhitespace(b)
    requires Parse(a).Err? && Parse(b) == Ok(p)
    ensures HandleHandshake(Some(a + ", " + b)) == Accepted(Format(p), p)
  {
    CandidatesOfCommaSpace(a, b);
    FirstParseSelectsFirst([a, b], 1);
  }

  /** An unsupported first offer is skipped and the second one is echoed. */
  lemma NegotiationExample()
    ensures HandleHandshake(Some("spacecoffee.blimp.v2137.json" + ", " + "spacecoffee.blimp.v1.postcard"))
         == Accepted("spacecoffee.blimp.v1.postcard", BlimpSubprotocol(1, Postcard))
  {
    var a, b := "spacecoffee.blimp.v2137.json", "spacecoffee.blimp.v1.postcard";
    TestOffersAreTokens(a, b);
    ParseExampleIncompatibleVersion();
    ParseExamplePostcard();
    FormatExamplePostcard();
    SecondOfferAccepted(a, b, BlimpSubprotocol(1, Postcard));
  }

  /** A header holding one parsable token is answered with that token's canonical form. */
  lemma SingleOfferAccepted(offer: string, p: BlimpSubprotocol)
    requires ',' !in offer && NoOuterWhitespace(offer)
    requires Parse(offer) == Ok(p)
    ensures HandleHandshake(Some(offer)) == Accepted(Format(p), p)
  {
    SingleCandidate(offer);
    FirstParseSelectsFirst([offer], 0);
  }

  /** The echoed header is the canonical token, which may differ from the offered text. */
  lemma NegotiationCanonicalises()
    ensures HandleHandshake(Some("spacecoffee.blimp.v01.json"))
         == Accepted("spacecoffee.blimp.v1.json", BlimpSubprotocol(1, Json))
  {
    var offer, p := "spacecoffee.blimp.v01.json", BlimpSubprotocol(1, Json);
    OfferIsOneToken(offer);
    FormatIsNotLeftInverse();
    FormatExampleVersionOneJson();
    SingleOfferAccepted(offer, p);
  }

  /** The offer of the canonicalisation example is one token without outer whitespace. */
  lemma OfferIsOneToken(offer: string)
    requires offer == "spacecoffee.blimp.v01.json"
    ensures ',' !in offer && NoOuterWhitespace(offer)
  {
  }
}
