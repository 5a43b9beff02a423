/** Utils+AsteriskChannel.cs: a raw channel string TECH/NAME[-SUFFIX][@CONTEXT]
    broken into an AsteriskChannel record, and the same record built from a
    (protocol, name) peer. */
module AsteriskChannels {
  import opened Wrappers
  import opened Errors
  import opened Strings
  import opened AsteriskChannelProtocols

  /** PeerInfo, reduced to the two properties the generator reads. */
  datatype PeerInfo = PeerInfo(protocol: AsteriskChannelProtocol, name: string)

  /** AsteriskChannel. For name, suffix and context, None means the property was
      never assigned and keeps its default; protocol's default is taken to be
      UNKNOWN. */
  datatype AsteriskChannel = AsteriskChannel(
    id: string,
    protocol: AsteriskChannelProtocol,
    name: Option<string>,
    suffix: Option<string>,
    context: Option<string>)

  /** `new AsteriskChannel { Id = id }`: only the id is set. */
  function Unparsed(id: string): AsteriskChannel {
    AsteriskChannel(id, UNKNOWN, None, None, None)
  }

  /** Index 0 and index 1 of `id.Split('/')`: the technology token before the
      first `/`, and the track between the first and the second `/`. Both indexes
      are in range because `id` contains a `/`; later segments are dropped. */
  function TechAndTrack(id: string): (parts: (string, string))
    requires '/' in id
    ensures FirstTwoSegments(id, '/', parts.0, parts.1)
  {
    SplitFirstTwo(id, '/');
    var splitted := Split(id, '/');
    (splitted[0], splitted[1])
  }

  /** The name/context split of the text left once the suffix is gone: without
      an `@` the whole of it is the name and the context stays unset; otherwise
      the name is the text before the first `@` and the context the text between
      the first and the second `@`. */
  predicate ContextDecomposed(stem: string, ch: AsteriskChannel) {
    ch.name.Some? &&
    match ch.context
    case None => '@' !in stem && ch.name.value == stem
    case Some(context) => FirstTwoSegments(stem, '@', ch.name.value, context)
  }

  /** The text the context step works on: the track without its suffix. */
  function Stem(track: string, ch: AsteriskChannel): string {
    if ch.suffix.Some? && |ch.suffix.value| < |track| then track[..|track| - |ch.suffix.value| - 1] else track
  }

  /** The split of a track: without a `-` the suffix stays unset and the whole
      track goes on to the context split; otherwise track == stem + "-" + suffix
      with no `-` in the suffix (the split is at the LAST `-`), and the stem goes
      on to the context split. */
  predicate TrackDecomposed(track: string, ch: AsteriskChannel) {
    match ch.suffix
    case None => '-' !in track && ContextDecomposed(track, ch)
    case Some(suffix) =>
      |suffix| < |track| &&
      SplitsAtLast(track, '-', Stem(track, ch), suffix) && ContextDecomposed(Stem(track, ch), ch)
  }

  /** The suffix step: cutting the track at its last `-` meets TrackDecomposed's
      description of the suffix, whatever the context step then does. */
  lemma SuffixStep(track: string, ch: AsteriskChannel)
    requires '-' in track
    requires ch.suffix == Some(track[LastIndexOf(track, '-') + 1..])
    requires ContextDecomposed(track[..LastIndexOf(track, '-')], ch)
    ensures TrackDecomposed(track, ch)
  {
    LastIndexOfSplits(track, '-');
    assert Stem(track, ch) == track[..LastIndexOf(track, '-')];
  }

  /** The context step: index 0 and index 1 of `stem.Split('@')` meet
      ContextDecomposed's description. */
  lemma ContextStep(stem: string, ch: AsteriskChannel)
    requires '@' in stem
    requires ch.name == Some(Split(stem, '@')[0]) && ch.context == Some(Split(stem, '@')[1])
    ensures ContextDecomposed(stem, ch)
  {
    SplitFirstTwo(stem, '@');
  }

  /** What AsteriskChannelGenerate(string) promises about its outcome `r` for
      `source`: a null or blank source, and only such a source, is rejected with
      ArgumentNull; the source is kept verbatim as the id; without a `/` nothing
      else is set; otherwise an unknown technology fails the whole call with that
      same error, and a known one is the protocol of a record whose name, suffix
      and context decompose the track. GeneratedUnique shows that this fixes `r`. */
  predicate Generated(source: NullableString, r: Result<AsteriskChannel, Error>) {
    if IsNullOrWhiteSpace(source) then r == Failure(ArgumentNull)
    else if '/' !in source.value then r == Success(Unparsed(source.value))
    else
      var (tech, track) := TechAndTrack(source.value);
      match ToAsteriskChannelProtocol(tech)
      case Failure(e) => r == Failure(e)
      case Success(protocol) =>
        r.Success? && r.value.id == source.value && r.value.protocol == protocol &&
        TrackDecomposed(track, r.value)
  }

  /** AsteriskChannelGenerate(string): rejects a null or blank source with
      ArgumentNull; keeps the source verbatim as the id; leaves everything else at
      its default when there is no `/`; otherwise resolves the technology token
      (an unknown one fails the whole call with that same error) and decomposes
      the track. */
  method AsteriskChannelGenerate(source: NullableString) returns (r: Result<AsteriskChannel, Error>)
    ensures Generated(source, r)
  {
    if IsNullOrWhiteSpace(source) {
      return Failure(ArgumentNull);
    }
    var channel := Unparsed(source.value);
    if '/' in channel.id {
      var splitted := Split(channel.id, '/');
      var tech := splitted[0];
      var protocol :- ToAsteriskChannelProtocol(tech);
      channel := channel.(protocol := protocol);

      var track := splitted[1];
      var separator := LastIndexOf(track, '-');
      if separator > -1 {
        channel := channel.(suffix := Some(track[separator + 1..]));
        channel := channel.(name := Some(track[..separator]));
      } else {
        channel := channel.(name := Some(track));
      }
      ghost var stem := channel.name.value;

      if '@' in channel.name.value {
        var withContext := Split(channel.name.value, '@');
        // `>= 1` never excludes anything: a name containing `@` splits into at least two parts.
        if |withContext| >= 1 {
          channel := channel.(context := Some(withContext[1]));
        }
        channel := channel.(name := Some(withContext[0]));
        ContextStep(stem, channel);
      }
      assert ContextDecomposed(stem, channel);
      assert TrackDecomposed(track, channel) by {
        if separator > -1 {
          SuffixStep(track, channel);
        }
      }
      assert TechAndTrack(channel.id) == (tech, track);
    }
    return Success(channel);
  }

  /** A suffix is set exactly when the track holds a `-`, and a context exactly
      when the stem holds an `@`. */
  lemma DecomposedFieldsSet(track: string, ch: AsteriskChannel)
    requires TrackDecomposed(track, ch)
    ensures ch.suffix.Some? <==> '-' in track
    ensures ch.context.Some? <==> '@' in Stem(track, ch)
    ensures ContextDecomposed(Stem(track, ch), ch)
  {
    var stem := Stem(track, ch);
    if ch.suffix.Some? {
      assert track[|stem|] == '-';
    }
    if ch.context.Some? {
      assert stem[|ch.name.value|] == '@';
    }
  }

  /** The decomposition of a track is unique: the record's name, suffix and
      context are determined by the track. */
  lemma TrackDecomposedUnique(track: string, ch1: AsteriskChannel, ch2: AsteriskChannel)
    requires TrackDecomposed(track, ch1) && TrackDecomposed(track, ch2)
    ensures ch1.name == ch2.name && ch1.suffix == ch2.suffix && ch1.context == ch2.context
  {
    DecomposedFieldsSet(track, ch1);
    DecomposedFieldsSet(track, ch2);
    var stem1, stem2 := Stem(track, ch1), Stem(track, ch2);
    if ch1.suffix.Some? {
      SplitsAtLastUnique(track, '-', stem1, ch1.suffix.value, stem2, ch2.suffix.value);
    }
    if ch1.context.Some? {
      FirstTwoSegmentsUnique(stem1, '@', ch1.name.value, ch1.context.value, ch2.name.value, ch2.context.value);
    }
  }

  /** Generated allows one outcome per source: the parse is a function of it. */
  lemma GeneratedUnique(source: NullableString, r1: Result<AsteriskChannel, Error>, r2: Result<AsteriskChannel, Error>)
    requires Generated(source, r1) && Generated(source, r2)
    ensures r1 == r2
  {
    if r1.Success? && r2.Success? && '/' in source.value {
      TrackDecomposedUnique(TechAndTrack(source.value).1, r1.value, r2.value);
    }
  }

  /** Whatever the track, the final name is a prefix of it and holds no `@`. */
  lemma DecomposedNameIsPrefix(track: string, ch: AsteriskChannel)
    requires TrackDecomposed(track, ch)
    ensures ch.name.Some? && '@' !in ch.name.value
    ensures |ch.name.value| <= |track| && track[..|ch.name.value|] == ch.name.value
  {
    var stem := Stem(track, ch);
    var name := ch.name.value;
    if ch.context.Some? {
      assert stem[..|name| + 1 + |ch.context.value|][..|name|] == name;
    }
    assert stem[..|name|] == name;
  }

  /** AsteriskChannelGenerate(PeerInfo): never fails; the id is the protocol's
      name, `/` and the peer's name, so splitting it again gives back the
      protocol's name and (when it holds no `/`) the peer's name. */
  function AsteriskChannelGenerateFromPeer(source: PeerInfo): (ch: AsteriskChannel)
    ensures ch.id == ProtocolName(source.protocol) + "/" + source.name
    ensures ch.protocol == source.protocol && ch.name == Some(source.name)
    ensures ch.suffix.None? && ch.context.None?
    ensures '/' in ch.id && TechAndTrack(ch.id).0 == ProtocolName(source.protocol)
    ensures '/' !in source.name ==> TechAndTrack(ch.id) == (ProtocolName(source.protocol), source.name)
  {
    var id := ProtocolName(source.protocol) + "/" + source.name;
    SplitConcat(ProtocolName(source.protocol), '/', source.name);
    SplitHead(source.name, '/');
    AsteriskChannel(id, source.protocol, Some(source.name), None, None)
  }

  /** Re-parsing the id of a channel built from a peer, `r` being what
      AsteriskChannelGenerate(string) gives for it: an UNKNOWN protocol is
      rejected by name; any other one is recovered, and with a name free of `/`,
      `-` and `@` the whole record comes back unchanged. */
  lemma RegenerateFromPeer(peer: PeerInfo, r: Result<AsteriskChannel, Error>)
    requires Generated(Some(AsteriskChannelGenerateFromPeer(peer).id), r)
    ensures peer.protocol == UNKNOWN ==> r == Failure(UnrecognizedProtocol("UNKNOWN"))
    ensures peer.protocol != UNKNOWN ==> r.Success? && r.value.protocol == peer.protocol
    ensures peer.protocol != UNKNOWN && '/' !in peer.name && '-' !in peer.name && '@' !in peer.name ==>
              r == Success(AsteriskChannelGenerateFromPeer(peer))
  {
    var built := AsteriskChannelGenerateFromPeer(peer);
    assert !IsNullOrWhiteSpace(Some(built.id)) by {
      assert built.id[0] == ProtocolName(peer.protocol)[0];
    }
    assert '/' in built.id && TechAndTrack(built.id).0 == ProtocolName(peer.protocol);
    ProtocolNameRoundTrip(peer.protocol);
    if peer.protocol != UNKNOWN && '/' !in peer.name && '-' !in peer.name && '@' !in peer.name {
      assert TrackDecomposed(peer.name, built) by {
        assert TechAndTrack(built.id).1 == peer.name;
      }
      TrackDecomposedUnique(peer.name, r.value, built);
    }
  }

  /** Splitting TECH/TRACK, where neither part holds a `/`, gives the two parts back. */
  lemma TechAndTrackOf(tech: string, track: string)
    requires '/' !in tech && '/' !in track
    ensures '/' in tech + "/" + track
    ensures TechAndTrack(tech + "/" + track) == (tech, track)
  {
    assert tech + "/" + track == tech + ['/'] + track;
    SplitConcat(tech, '/', track);
    SplitHead(track, '/');
  }

  /** NAME[@CONTEXT]-SUFFIX, with no `@` in the name or the context and no `-`
      in the suffix, decomposes into exactly those parts. */
  lemma TrackDecomposedOf(ch: AsteriskChannel, stem: string, suffix: string)
    requires ch.name.Some? && '@' !in ch.name.value && ch.suffix == Some(suffix) && '-' !in suffix
    requires ch.context.Some? ==> '@' !in ch.context.value && stem == ch.name.value + "@" + ch.context.value
    requires ch.context.None? ==> stem == ch.name.value
    ensures TrackDecomposed(stem + "-" + suffix, ch)
  {
    var track := stem + "-" + suffix;
    assert track == stem + ['-'] + suffix;
    assert track[..|track| - |suffix| - 1] == stem;
    if ch.context.Some? {
      assert stem == ch.name.value + ['@'] + ch.context.value;
      assert stem[..|stem|] == stem;
    }
  }

  /** NAME[@CONTEXT]: the track of PROTOCOL/NAME[@CONTEXT]-SUFFIX without its suffix. */
  function ExpectedStem(name: string, context: Option<string>): string {
    if context.Some? then name + "@" + context.value else name
  }

  /** The record ParseChannel expects for PROTOCOL/NAME[@CONTEXT]-SUFFIX. */
  function ExpectedChannel(p: AsteriskChannelProtocol, name: string, context: Option<string>, suffix: string): AsteriskChannel {
    AsteriskChannel(ProtocolName(p) + "/" + (ExpectedStem(name, context) + "-" + suffix), p, Some(name), Some(suffix), context)
  }

  /** What AsteriskChannelGenerate needs to know about the id of ExpectedChannel:
      it is not blank, its first two `/` segments are the protocol's name and the
      track, the protocol's name resolves, and the track decomposes into the
      expected record. */
  lemma ExpectedChannelParts(p: AsteriskChannelProtocol, name: string, context: Option<string>, suffix: string)
    requires p != UNKNOWN
    requires '/' !in name && '@' !in name
    requires context.Some? ==> '/' !in context.value && '@' !in context.value
    requires '/' !in suffix && '-' !in suffix
    ensures var ch := ExpectedChannel(p, name, context, suffix);
            !IsNullOrWhiteSpace(Some(ch.id)) && '/' in ch.id &&
            ToAsteriskChannelProtocol(TechAndTrack(ch.id).0) == Success(p) &&
            TrackDecomposed(TechAndTrack(ch.id).1, ch)
  {
    var ch := ExpectedChannel(p, name, context, suffix);
    var tech := ProtocolName(p);
    var stem := ExpectedStem(name, context);
    var track := stem + "-" + suffix;
    assert ch.id == tech + "/" + track;
    assert '/' !in track by {
      assert track == stem + ['-'] + suffix;
      if context.Some? {
        assert stem == name + ['@'] + context.value;
      }
    }
    assert !IsNullOrWhiteSpace(Some(ch.id)) by {
      assert ch.id[0] == tech[0];
    }
    assert '/' in ch.id && TechAndTrack(ch.id) == (tech, track) by {
      TechAndTrackOf(tech, track);
    }
    assert ToAsteriskChannelProtocol(tech) == Success(p) by {
      ProtocolNameRoundTrip(p);
    }
    assert TrackDecomposed(track, ch) by {
      TrackDecomposedOf(ch, stem, suffix);
    }
  }

  /** AsteriskChannelGenerate(string) on PROTOCOL/NAME[@CONTEXT]-SUFFIX for a
      known protocol, with no `/` anywhere after the protocol, no `@` in the name
      or the context, and no `-` in the suffix: the record holds exactly those
      parts. */
  lemma ParseChannel(p: AsteriskChannelProtocol, name: string, context: Option<string>, suffix: string,
                     r: Result<AsteriskChannel, Error>)
    requires p != UNKNOWN
    requires '/' !in name && '@' !in name
    requires context.Some? ==> '/' !in context.value && '@' !in context.value
    requires '/' !in suffix && '-' !in suffix
    requires Generated(Some(ExpectedChannel(p, name, context, suffix).id), r)
    ensures r == Success(ExpectedChannel(p, name, context, suffix))
  {
    var expected := ExpectedChannel(p, name, context, suffix);
    ExpectedChannelParts(p, name, context, suffix);
    TrackDecomposedUnique(TechAndTrack(expected.id).1, r.value, expected);
  }

  /** The parts of LOCAL/2344534fgdfgdfg-4543611@from-queues lack the
      separators ParseChannel excludes. */
  lemma LocalExampleParts()
    ensures '/' !in "2344534fgdfgdfg-4543611" && '@' !in "2344534fgdfgdfg-4543611"
    ensures '/' !in "from" && '@' !in "from" && '/' !in "queues" && '-' !in "queues"
  {
  }

  /** The parts of PJSIP/out-datora-4543611@external lack the separators
      ParseChannel excludes. */
  lemma PjsipExampleParts()
    ensures '/' !in "out-datora" && '@' !in "out-datora"
    ensures '/' !in "4543611@external" && '-' !in "4543611@external"
  {
  }

  /** AsteriskChannelGenerate(string) on the first channel whose title is
      documented beside GetChannelTitle, LOCAL/2344534fgdfgdfg-4543611@from-queues:
      the last `-` of its track lies inside the context, so the suffix is
      "queues", the context "from" and the name keeps its own `-`. */
  lemma ParseLocalExample(source: string, r: Result<AsteriskChannel, Error>)
    requires source == "LOCAL" + "/" + ("2344534fgdfgdfg-4543611" + "@" + "from" + "-" + "queues")
    requires Generated(Some(source), r)
    ensures r == Success(AsteriskChannel(source, LOCAL, Some("2344534fgdfgdfg-4543611"), Some("queues"), Some("from")))
  {
    var p, name, context, suffix := LOCAL, "2344534fgdfgdfg-4543611", Some("from"), "queues";
    assert ProtocolName(p) == "LOCAL";
    LocalExampleParts();
    ParseChannel(p, name, context, suffix, r);
  }

  /** AsteriskChannelGenerate(string) on the second channel whose title is
      documented beside GetChannelTitle, PJSIP/out-datora-4543611@external: the
      last `-` of its track comes before the `@`, so the suffix keeps "@external"
      and no context is set. */
  lemma ParsePjsipExample(source: string, r: Result<AsteriskChannel, Error>)
    requires source == "PJSIP" + "/" + ("out-datora" + "-" + "4543611@external")
    requires Generated(Some(source), r)
    ensures r == Success(AsteriskChannel(source, PJSIP, Some("out-datora"), Some("4543611@external"), None))
  {
    var p, name, context, suffix := PJSIP, "out-datora", None, "4543611@external";
    assert ProtocolName(p) == "PJSIP";
    PjsipExampleParts();
    ParseChannel(p, name, context, suffix, r);
  }
}
