/** Utils+AsteriskChannelProtocol.cs: the technology token of a channel
    ("PJSIP", "sip", " Local ") mapped to the closed protocol enumeration. */
module AsteriskChannelProtocols {
  import opened Wrappers
  import opened Errors
  import opened Strings

  /** AsteriskChannelProtocol; UNKNOWN is taken to be the enum's default value. */
  datatype AsteriskChannelProtocol = UNKNOWN | LOCAL | SIP | PJSIP | IAX | IAX2 | MESSAGE

  /** The member's name, as enum formatting prints it. */
  function ProtocolName(p: AsteriskChannelProtocol): (name: string)
    ensures name != [] && !IsWhiteSpace(name[0]) && '/' !in name && IsUpperCase(name)
  {
    match p
    case UNKNOWN => "UNKNOWN"
    case LOCAL => "LOCAL"
    case SIP => "SIP"
    case PJSIP => "PJSIP"
    case IAX => "IAX"
    case IAX2 => "IAX2"
    case MESSAGE => "MESSAGE"
  }

  /** The token the switch compares: source.ToUpperInvariant().Trim(). */
  function ProtocolToken(source: string): string {
    Trim(ToUpper(source))
  }

  /** ToAsteriskChannelProtocol: succeeds exactly when the normalised token is the
      name of a protocol other than UNKNOWN, and returns that protocol; any other
      token raises UnrecognizedProtocol carrying the input. */
  function ToAsteriskChannelProtocol(source: string): (r: Result<AsteriskChannelProtocol, Error>)
    ensures r.Success? ==> r.value != UNKNOWN && ProtocolName(r.value) == ProtocolToken(source)
    ensures r.Failure? ==> r.error == UnrecognizedProtocol(source)
  {
    match ProtocolToken(source)
    case "LOCAL" => Success(LOCAL)
    case "SIP" => Success(SIP)
    case "PJSIP" => Success(PJSIP)
    case "IAX" => Success(IAX)
    case "IAX2" => Success(IAX2)
    case "MESSAGE" => Success(MESSAGE)
    case _ => Failure(UnrecognizedProtocol(source))
  }

  /** TryParseAsteriskChannelProtocol: the throwing form behind a catch-all. A null
      source (whose dereference throws inside the try) and every other failure
      give (false, UNKNOWN). */
  function TryParseAsteriskChannelProtocol(source: NullableString): (r: (bool, AsteriskChannelProtocol))
    ensures r.0 <==> source.Some? && ToAsteriskChannelProtocol(source.value).Success?
    ensures r.0 ==> r.1 == ToAsteriskChannelProtocol(source.value).value
    ensures r.0 <==> r.1 != UNKNOWN
  {
    if source.None? then (false, UNKNOWN)
    else
      match ToAsteriskChannelProtocol(source.value)
      case Success(p) => (true, p)
      case Failure(_) => (false, UNKNOWN)
  }

  /** A protocol's name is already normalised. */
  lemma ProtocolNameIsToken(p: AsteriskChannelProtocol)
    ensures ProtocolToken(ProtocolName(p)) == ProtocolName(p)
  {
    UpperCaseToUpper(ProtocolName(p));
    TrimTrimmed(ProtocolName(p));
  }

  /** Every source whose token names a protocol other than UNKNOWN is recognised
      as that protocol; with the Success clause above, recognition holds exactly
      for those sources. */
  lemma ToAsteriskChannelProtocolComplete(source: string, p: AsteriskChannelProtocol)
    requires p != UNKNOWN && ProtocolName(p) == ProtocolToken(source)
    ensures ToAsteriskChannelProtocol(source) == Success(p)
  {
  }

  /** Every protocol but UNKNOWN is recognised under its own name; UNKNOWN is
      not, because the switch has no case for it. */
  lemma ProtocolNameRoundTrip(p: AsteriskChannelProtocol)
    ensures p != UNKNOWN ==> ToAsteriskChannelProtocol(ProtocolName(p)) == Success(p)
    ensures p == UNKNOWN ==> ToAsteriskChannelProtocol(ProtocolName(p)) == Failure(UnrecognizedProtocol("UNKNOWN"))
  {
    ProtocolNameIsToken(p);
    if p != UNKNOWN {
      ToAsteriskChannelProtocolComplete(ProtocolName(p), p);
    } else {
      UnknownTokenRejected(ProtocolName(p));
    }
  }

  /** A source whose token is "UNKNOWN" is rejected. */
  lemma UnknownTokenRejected(source: string)
    requires ProtocolToken(source) == ProtocolName(UNKNOWN)
    ensures ToAsteriskChannelProtocol(source) == Failure(UnrecognizedProtocol(source))
  {
    var token := ProtocolToken(source);
    assert token[0] == 'U' && |token| == 7;
  }

  /** Recognition depends on the normalised token only. */
  lemma ProtocolTokenDecides(s1: string, s2: string)
    requires ProtocolToken(s1) == ProtocolToken(s2)
    ensures TryParseAsteriskChannelProtocol(Some(s1)) == TryParseAsteriskChannelProtocol(Some(s2))
  {
  }

  /** Surrounding whitespace does not change what is recognised. */
  lemma ProtocolIgnoresPadding(a: string, s: string, b: string)
    requires AllWhiteSpace(a) && AllWhiteSpace(b)
    ensures TryParseAsteriskChannelProtocol(Some(a + s + b)) == TryParseAsteriskChannelProtocol(Some(s))
  {
    assert ProtocolToken(a + s + b) == ProtocolToken(s) by {
      ToUpperConcat(a + s, b);
      ToUpperConcat(a, s);
      ToUpperWhiteSpace(a);
      ToUpperWhiteSpace(b);
      TrimPadded(ToUpper(a), ToUpper(s), ToUpper(b));
    }
    ProtocolTokenDecides(a + s + b, s);
  }

  /** Letter case does not change what is recognised. */
  lemma ProtocolIgnoresCase(s: string)
    ensures TryParseAsteriskChannelProtocol(Some(ToLower(s))) == TryParseAsteriskChannelProtocol(Some(s))
  {
    ToUpperToLower(s);
    ProtocolTokenDecides(ToLower(s), s);
  }
}
