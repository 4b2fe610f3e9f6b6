/**
  The subprotocol identifier `<organization>.<project>.v<version>.<flavour>`
  that a connection negotiates once, at handshake time: its value type,
  the fixed namespace and support tables, the parser with its three
  errors and the canonical formatter.
 */
module Subprotocol {
  import opened Wrappers
  import opened Text

  /** Wire format of the messages on a connection. */
  datatype Flavour = Json | Postcard

  /** Why a token is not an acceptable subprotocol. */
  datatype ValidationError = InvalidProtocol | IncompatibleVersion | UnsupportedFlavour

  datatype BlimpSubprotocol = BlimpSubprotocol(version: u16, flavour: Flavour)

  const PROTOCOL_ORGANIZATION: string := "spacecoffee"
  const PROTOCOL_PROJECT: string := "blimp"
  /** The version `Default` uses; the crate defines it outside the modelled files. */
  const PROTOCOL_VERSION: u16 := 1

  const SUPPORTED_VERSIONS: seq<u16> := [1]
  const SUPPORTED_FLAVOURS: map<string, Flavour> := map["json" := Json, "postcard" := Postcard]

  /** The subprotocol a session uses when nothing else is asked for. */
  function Default(): (p: BlimpSubprotocol)
    ensures p.flavour == Postcard
    ensures p.version in SUPPORTED_VERSIONS
  {
    BlimpSubprotocol(PROTOCOL_VERSION, Postcard)
  }

  /** The name under which a flavour is written; the flavour table maps it back. */
  function FlavourName(f: Flavour): (name: string)
    ensures name in SUPPORTED_FLAVOURS && SUPPORTED_FLAVOURS[name] == f
    ensures '.' !in name
  {
    match f
    case Json => "json"
    case Postcard => "postcard"
  }

  /** Every entry of the flavour table is the name of its flavour. */
  lemma FlavourTableIsNames(name: string)
    requires name in SUPPORTED_FLAVOURS
    ensures FlavourName(SUPPORTED_FLAVOURS[name]) == name
  {
  }

  /**
    `from_str`: split on `.` into exactly four segments; the first two
    must be the organization and the project, the third `v` followed by a
    `u16`, else `InvalidProtocol`; then the version must be supported, else
    `IncompatibleVersion`; then the fourth segment must name a flavour,
    else `UnsupportedFlavour`.
   */
  function Parse(s: string): (r: Result<BlimpSubprotocol, ValidationError>)
    ensures r.Ok? ==> r.value.version in SUPPORTED_VERSIONS
    ensures r.Ok? ==> |Split(s, '.')| == 4
                      && Split(s, '.')[3] in SUPPORTED_FLAVOURS
                      && r.value.flavour == SUPPORTED_FLAVOURS[Split(s, '.')[3]]
  {
    var namespaces := Split(s, '.');
    if |namespaces| != 4 then Err(InvalidProtocol)
    else
      // With exactly four segments the slice pattern always matches, so
      // its `else` branch cannot be taken and is not modelled.
      var organization, project, version, flavour := namespaces[0], namespaces[1], namespaces[2], namespaces[3];
      if organization != PROTOCOL_ORGANIZATION || project != PROTOCOL_PROJECT then Err(InvalidProtocol)
      else
        var parsedVersion := if |version| >= 1 && version[0] == 'v' then ParseU16(version[1..]) else None;
        if parsedVersion.None? then Err(InvalidProtocol)
        else if parsedVersion.value !in SUPPORTED_VERSIONS then Err(IncompatibleVersion)
        else if flavour !in SUPPORTED_FLAVOURS then Err(UnsupportedFlavour)
        else Ok(BlimpSubprotocol(parsedVersion.value, SUPPORTED_FLAVOURS[flavour]))
  }

  /** `to_string()`: the canonical token of a subprotocol. */
  function Format(p: BlimpSubprotocol): (token: string)
    ensures Split(token, '.') == [PROTOCOL_ORGANIZATION, PROTOCOL_PROJECT, "v" + Decimal(p.version), FlavourName(p.flavour)]
  {
    var flavourName := FlavourName(p.flavour);
    var token := PROTOCOL_ORGANIZATION + "." + PROTOCOL_PROJECT + ".v" + Decimal(p.version) + "." + flavourName;
    assert token == Token(PROTOCOL_ORGANIZATION, PROTOCOL_PROJECT, "v" + Decimal(p.version), flavourName);
    SplitToken(PROTOCOL_ORGANIZATION, PROTOCOL_PROJECT, "v" + Decimal(p.version), flavourName);
    token
  }

  // ---------------------------------------------------------------------
  // Tokens built from four segments
  // ---------------------------------------------------------------------

  /** The dotted token with the four given segments. */
  function Token(organization: string, project: string, version: string, flavour: string): string
  {
    organization + "." + project + "." + version + "." + flavour
  }

  predicate Dotless(s: string)
  {
    '.' !in s
  }

  /** Joining four segments with dots is building their token. */
  lemma JoinFour(parts: seq<string>)
    requires |parts| == 4
    ensures Join(parts, '.') == Token(parts[0], parts[1], parts[2], parts[3])
  {
    assert parts[1..][1..] == parts[2..];
    assert parts[2..][1..] == parts[3..] == [parts[3]];
    assert Join(parts[2..], '.') == parts[2] + "." + parts[3];
    assert Join(parts[1..], '.') == parts[1] + "." + parts[2] + "." + parts[3];
  }

  /** A token of four dot-free segments splits back into exactly those segments. */
  lemma SplitToken(organization: string, project: string, version: string, flavour: string)
    requires Dotless(organization) && Dotless(project) && Dotless(version) && Dotless(flavour)
    ensures Split(Token(organization, project, version, flavour), '.') == [organization, project, version, flavour]
  {
    var parts := [organization, project, version, flavour];
    JoinFour(parts);
    SplitJoin(parts, '.');
  }

  // ---------------------------------------------------------------------
  // What the parser accepts and rejects, and in which order
  // ---------------------------------------------------------------------

  /** A token with other than three dots is an invalid protocol. */
  lemma ParseNeedsFourSegments(s: string)
    requires Count(s, '.') != 3
    ensures Parse(s) == Err(InvalidProtocol)
  {
    SplitCount(s, '.');
  }

  /** A foreign organization or project is an invalid protocol, whatever follows. */
  lemma ParseRejectsNamespace(organization: string, project: string, version: string, flavour: string)
    requires Dotless(organization) && Dotless(project) && Dotless(version) && Dotless(flavour)
    requires organization != PROTOCOL_ORGANIZATION || project != PROTOCOL_PROJECT
    ensures Parse(Token(organization, project, version, flavour)) == Err(InvalidProtocol)
  {
    SplitToken(organization, project, version, flavour);
  }

  /** A third segment that is not `v` and a `u16` is an invalid protocol. */
  lemma ParseRejectsVersionSyntax(version: string, flavour: string)
    requires Dotless(version) && Dotless(flavour)
    requires |version| == 0 || version[0] != 'v' || ParseU16(version[1..]).None?
    ensures Parse(Token(PROTOCOL_ORGANIZATION, PROTOCOL_PROJECT, version, flavour)) == Err(InvalidProtocol)
  {
    SplitToken(PROTOCOL_ORGANIZATION, PROTOCOL_PROJECT, version, flavour);
  }

  /**
    An unsupported version is reported as such whatever the flavour is:
    the version is checked before the flavour.
   */
  lemma ParseVersionBeforeFlavour(digits: string, flavour: string)
    requires Dotless(digits) && Dotless(flavour)
    requires ParseU16(digits).Some? && ParseU16(digits).value !in SUPPORTED_VERSIONS
    ensures Parse(Token(PROTOCOL_ORGANIZATION, PROTOCOL_PROJECT, "v" + digits, flavour)) == Err(IncompatibleVersion)
  {
    assert Dotless("v" + digits);
    SplitToken(PROTOCOL_ORGANIZATION, PROTOCOL_PROJECT, "v" + digits, flavour);
    assert ("v" + digits)[1..] == digits;
  }

  /** A supported version with a flavour missing from the table is an unsupported flavour. */
  lemma ParseRejectsFlavour(digits: string, flavour: string)
    requires Dotless(digits) && Dotless(flavour)
    requires ParseU16(digits).Some? && ParseU16(digits).value in SUPPORTED_VERSIONS
    requires flavour !in SUPPORTED_FLAVOURS
    ensures Parse(Token(PROTOCOL_ORGANIZATION, PROTOCOL_PROJECT, "v" + digits, flavour)) == Err(UnsupportedFlavour)
  {
    assert Dotless("v" + digits);
    SplitToken(PROTOCOL_ORGANIZATION, PROTOCOL_PROJECT, "v" + digits, flavour);
    assert ("v" + digits)[1..] == digits;
  }

  /** A well-formed token with a supported version and flavour is accepted. */
  lemma ParseAccepts(digits: string, flavour: string)
    requires Dotless(digits) && Dotless(flavour)
    requires ParseU16(digits).Some? && ParseU16(digits).value in SUPPORTED_VERSIONS
    requires flavour in SUPPORTED_FLAVOURS
    ensures Parse(Token(PROTOCOL_ORGANIZATION, PROTOCOL_PROJECT, "v" + digits, flavour))
         == Ok(BlimpSubprotocol(ParseU16(digits).value, SUPPORTED_FLAVOURS[flavour]))
  {
    assert Dotless("v" + digits);
    SplitToken(PROTOCOL_ORGANIZATION, PROTOCOL_PROJECT, "v" + digits, flavour);
    assert ("v" + digits)[1..] == digits;
  }

  /**
    The converse: whatever the parser does not reject as an invalid
    protocol has the shape `<organization>.<project>.v<u16>.<flavour>`.
   */
  lemma ParseInvalidUnlessWellFormed(s: string)
    requires Parse(s) != Err(InvalidProtocol)
    ensures exists digits, flavour ::
              && Dotless(digits) && Dotless(flavour) && ParseU16(digits).Some?
              && s == Token(PROTOCOL_ORGANIZATION, PROTOCOL_PROJECT, "v" + digits, flavour)
  {
    var parts := Split(s, '.');
    JoinSplit(s, '.');
    var digits, flavour := parts[2][1..], parts[3];
    assert |parts| == 4 && parts[0] == PROTOCOL_ORGANIZATION && parts[1] == PROTOCOL_PROJECT;
    assert |parts[2]| >= 1 && parts[2][0] == 'v' && ParseU16(digits).Some?;
    assert parts[2] == "v" + digits;
    assert Dotless(digits) by {
      forall i | 0 <= i < |digits| ensures digits[i] != '.' {
        assert digits[i] == parts[2][i + 1];
      }
    }
    JoinFour(parts);
    assert Dotless(flavour);
    assert s == Token(PROTOCOL_ORGANIZATION, PROTOCOL_PROJECT, "v" + digits, flavour);
  }

  // ---------------------------------------------------------------------
  // Round trip
  // ---------------------------------------------------------------------

  /**
    Parsing the canonical token gives the subprotocol back when its
    version is supported, and `IncompatibleVersion` otherwise.
   */
  lemma ParseFormat(p: BlimpSubprotocol)
    ensures Parse(Format(p)) == if p.version in SUPPORTED_VERSIONS then Ok(p) else Err(IncompatibleVersion)
  {
    var namespaces := Split(Format(p), '.');
    var version := namespaces[2];
    ParseDecimal(p.version);
    assert version[0] == 'v' && version[1..] == Decimal(p.version);
    assert SUPPORTED_FLAVOURS[namespaces[3]] == p.flavour;
  }

  /** Every accepted token canonicalises: formatting its value parses to the same value. */
  lemma ParseIsCanonical(s: string)
    requires Parse(s).Ok?
    ensures Parse(Format(Parse(s).value)) == Parse(s)
  {
    ParseFormat(Parse(s).value);
  }

  /**
    Formatting does not invert parsing: a version written with a leading
    zero is accepted, and its canonical token is different text.
   */
  lemma FormatIsNotLeftInverse()
    ensures Parse("spacecoffee.blimp.v01.json") == Ok(BlimpSubprotocol(1, Json))
    ensures Format(BlimpSubprotocol(1, Json)) != "spacecoffee.blimp.v01.json"
  {
    ParseU16NotInjective();
    assert "spacecoffee.blimp.v01.json" == Token(PROTOCOL_ORGANIZATION, PROTOCOL_PROJECT, "v" + "01", "json");
    ParseAccepts("01", "json");
    assert |Format(BlimpSubprotocol(1, Json))| == 25 by {
      assert Decimal(1) == "1";
    }
  }

  // ---------------------------------------------------------------------
  // The concrete cases the crate's tests pin down
  // ---------------------------------------------------------------------

  lemma FormatExamplePostcard()
    ensures Format(BlimpSubprotocol(1, Postcard)) == "spacecoffee.blimp.v1.postcard"
  {
    assert Decimal(1) == "1";
  }

  lemma FormatExampleVersionOneJson()
    ensures Format(BlimpSubprotocol(1, Json)) == "spacecoffee.blimp.v1.json"
  {
    assert Decimal(1) == "1";
  }

  lemma FormatExampleJson()
    ensures Format(BlimpSubprotocol(2, Json)) == "spacecoffee.blimp.v2.json"
  {
    assert Decimal(2) == "2";
  }

  lemma ParseExamplePostcard()
    ensures Parse("spacecoffee.blimp.v1.postcard") == Ok(BlimpSubprotocol(1, Postcard))
  {
    ParseU16NotInjective();
    assert "spacecoffee.blimp.v1.postcard" == Token(PROTOCOL_ORGANIZATION, PROTOCOL_PROJECT, "v" + "1", "postcard");
    ParseAccepts("1", "postcard");
  }

  lemma ParseExampleJson()
    ensures Parse("spacecoffee.blimp.v1.json") == Ok(BlimpSubprotocol(1, Json))
  {
    ParseU16NotInjective();
    assert "spacecoffee.blimp.v1.json" == Token(PROTOCOL_ORGANIZATION, PROTOCOL_PROJECT, "v" + "1", "json");
    ParseAccepts("1", "json");
  }

  lemma ParseExampleForeignOrganization()
    ensures Parse("vfly.blimp.v1.postcard") == Err(InvalidProtocol)
  {
    assert "vfly.blimp.v1.postcard" == Token("vfly", PROTOCOL_PROJECT, "v1", "postcard");
    ParseRejectsNamespace("vfly", PROTOCOL_PROJECT, "v1", "postcard");
  }

  lemma ParseExampleForeignProject()
    ensures Parse("spacecoffee.mper.v1.postcard") == Err(InvalidProtocol)
  {
    assert "spacecoffee.mper.v1.postcard" == Token(PROTOCOL_ORGANIZATION, "mper", "v1", "postcard");
    ParseRejectsNamespace(PROTOCOL_ORGANIZATION, "mper", "v1", "postcard");
  }

  lemma ParseExampleIncompatibleVersion()
    ensures Parse("spacecoffee.blimp.v2137.json") == Err(IncompatibleVersion)
  {
    assert "2137"[..3] == "213" && "213"[..2] == "21" && "21"[..1] == "2" && "2"[..0] == "";
    assert DigitsValue("2137") == 2137;
    assert "spacecoffee.blimp.v2137.json" == Token(PROTOCOL_ORGANIZATION, PROTOCOL_PROJECT, "v" + "2137", "json");
    ParseVersionBeforeFlavour("2137", "json");
  }

  lemma ParseExampleUnsupportedFlavour()
    ensures Parse("spacecoffee.blimp.v1.xml") == Err(UnsupportedFlavour)
  {
    ParseU16NotInjective();
    assert "spacecoffee.blimp.v1.xml" == Token(PROTOCOL_ORGANIZATION, PROTOCOL_PROJECT, "v" + "1", "xml");
    ParseRejectsFlavour("1", "xml");
  }
}
