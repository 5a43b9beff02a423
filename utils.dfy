/** Utils.cs: the switch's yes/no/null vocabulary mapped to a tri-state boolean
    and back, and the display title of a channel string. */
module Utils {
  import opened Wrappers
  import opened Errors
  import opened Strings

  /** TRUEVALUES: the spellings read as true; the first is the one written. */
  const TrueValues: seq<string> := ["yes", "true", "on", "1", "ok"]

  /** FALSEVALUES: the spellings read as false; the first is the one written. */
  const FalseValues: seq<string> := ["no", "false", "off", "0", "non"]

  /** NULLVALUES: the spellings read as unset. */
  const NullValues: seq<string> := ["null", ""]

  /** The token ToBoolean looks up: value.Trim().ToLowerInvariant(). */
  function BooleanToken(value: string): (token: string)
    ensures token == [] <==> AllWhiteSpace(value)
  {
    ToLower(Trim(value))
  }

  /** No spelling belongs to two of the tables, so the order in which ToBoolean
      consults them does not matter. */
  lemma TablesDisjoint()
    ensures forall t :: t in TrueValues ==> t !in FalseValues && t !in NullValues
    ensures forall t :: t in FalseValues ==> t !in NullValues
  {
  }

  /** ToBoolean: a null or blank value is unset; otherwise the trimmed,
      lower-cased token is unset, true or false according to the table holding
      it, and a token in no table raises UnrecognizedBoolean with the value. */
  function ToBoolean(value: NullableString): (r: Result<Option<bool>, Error>)
    ensures IsNullOrWhiteSpace(value) ==> r == Success(None)
    ensures r == Success(None) <==> IsNullOrWhiteSpace(value) || BooleanToken(value.value) in NullValues
    ensures r == Success(Some(true)) <==> value.Some? && BooleanToken(value.value) in TrueValues
    ensures r == Success(Some(false)) <==> value.Some? && BooleanToken(value.value) in FalseValues
    ensures r.Failure? ==> value.Some? && r.error == UnrecognizedBoolean(value.value)
  {
    if IsNullOrWhiteSpace(value) then Success(None)
    else
      var test := BooleanToken(value.value);
      if test in NullValues then Success(None)
      else if test in TrueValues then Success(Some(true))
      else if test in FalseValues then Success(Some(false))
      else Failure(UnrecognizedBoolean(value.value))
  }

  /** ToBoolean's answer depends on the normalised token alone (only the text
      carried by the error may differ). */
  lemma ToBooleanDependsOnToken(v1: string, v2: string)
    requires BooleanToken(v1) == BooleanToken(v2)
    ensures ToBoolean(Some(v1)).Failure? == ToBoolean(Some(v2)).Failure?
    ensures ToBoolean(Some(v1)).Success? ==> ToBoolean(Some(v1)) == ToBoolean(Some(v2))
  {
  }

  /** Surrounding whitespace and letter case do not change ToBoolean's answer. */
  lemma ToBooleanIgnoresPaddingAndCase(a: string, s: string, b: string)
    requires AllWhiteSpace(a) && AllWhiteSpace(b)
    ensures BooleanToken(a + s + b) == BooleanToken(s)
    ensures BooleanToken(ToUpper(s)) == BooleanToken(s)
  {
    TrimPadded(a, s, b);
    TrimToUpper(s);
    ToUpperToLower(Trim(s));
  }

  /** ToAsteriskString: unset stays unset, true is written "yes" and false "no",
      the first spelling of each table. */
  function ToAsteriskString(value: Option<bool>): (r: NullableString)
    ensures r.None? <==> value.None?
    ensures value == Some(true) ==> r == Some(TrueValues[0])
    ensures value == Some(false) ==> r == Some(FalseValues[0])
  {
    if value.None? then None
    else if value.value then Some(TrueValues[0]) else Some(FalseValues[0])
  }

  /** Reading back what ToAsteriskString wrote gives the original tri-state. */
  lemma ToBooleanToAsteriskString(value: Option<bool>)
    ensures ToBoolean(ToAsteriskString(value)) == Success(value)
  {
    if value.Some? {
      var written := ToAsteriskString(value).value;
      assert !IsWhiteSpace(written[0]) && !IsWhiteSpace(written[|written| - 1]);
      TrimTrimmed(written);
      LowerCaseToLower(written);
    }
  }

  // ------------------------------------------------------------ GetChannelTitle

  /** The part GetChannelTitle keeps before its last step: `head`, the text of
      the channel before its first `@`, and of that head, when it holds a `/`,
      the segment after the first `/` (up to the next one). TitleStemUnique
      shows that this fixes the stem. */
  ghost predicate IsTitleStem(channel: string, stem: string) {
    exists head :: BeforeFirst(channel, '@', head) &&
      if '/' in head then exists tech :: FirstTwoSegments(head, '/', tech, stem) else stem == head
  }

  /** A channel has one stem. */
  lemma TitleStemUnique(channel: string, s1: string, s2: string)
    requires IsTitleStem(channel, s1) && IsTitleStem(channel, s2)
    ensures s1 == s2
  {
    var h1 :| BeforeFirst(channel, '@', h1) &&
      if '/' in h1 then exists tech :: FirstTwoSegments(h1, '/', tech, s1) else s1 == h1;
    var h2 :| BeforeFirst(channel, '@', h2) &&
      if '/' in h2 then exists tech :: FirstTwoSegments(h2, '/', tech, s2) else s2 == h2;
    BeforeFirstUnique(channel, '@', h1, h2);
    if '/' in h1 {
      var t1 :| FirstTwoSegments(h1, '/', t1, s1);
      var t2 :| FirstTwoSegments(h1, '/', t2, s2);
      FirstTwoSegmentsUnique(h1, '/', t1, s1, t2, s2);
    }
  }

  /** What GetChannelTitle has left before its last step, as IsTitleStem
      describes it; it holds no `@` and no `/` and lies inside the channel. */
  function TitleStem(channel: string): (stem: string)
    ensures IsTitleStem(channel, stem)
    ensures '@' !in stem && '/' !in stem
    ensures IsInfix(stem, channel)
  {
    var head := Split(channel, '@')[0];
    SplitHead(channel, '@');
    SplitBeforeFirst(channel, '@');
    assert Substring(channel, 0, |head|) == head;
    if '/' in head then
      var second := Split(head, '/')[1];
      SplitFirstTwo(head, '/');
      var first := Split(head, '/')[0];
      assert Substring(head, |first| + 1, |second|) == second;
      InfixTransitive(second, head, channel);
      assert FirstTwoSegments(head, '/', first, second);
      second
    else
      head
  }

  /** `title` is `stem` cut before its last `-`, or the whole stem when it holds none. */
  predicate CutAtLastDash(stem: string, title: string) {
    if '-' in stem then |title| < |stem| && SplitsAtLast(stem, '-', title, stem[|title| + 1..])
    else title == stem
  }

  /** What GetChannelTitle promises about its result `title` for `channel`: ""
      for a null or blank channel; otherwise a substring of the channel with no
      `@` and no `/`, namely the stem cut before its last `-`. TitledUnique shows
      that this fixes the title. */
  ghost predicate Titled(channel: NullableString, title: string) {
    if IsNullOrWhiteSpace(channel) then title == ""
    else
      IsInfix(title, channel.value) && '@' !in title && '/' !in title &&
      CutAtLastDash(TitleStem(channel.value), title)
  }

  /** GetChannelTitle: "" for a null or blank channel; otherwise a substring of
      the channel with no `@` and no `/`: the stem cut before its last `-`. */
  method GetChannelTitle(channel: NullableString) returns (result: string)
    ensures Titled(channel, result)
  {
    result := "";
    if !IsNullOrWhiteSpace(channel) {
      result := channel.value;

      if '@' in result {
        result := Split(result, '@')[0];
      }

      if '/' in result {
        var splitted := Split(result, '/');
        // Always taken: a string containing `/` splits into at least two parts.
        if |splitted| > 1 {
          result := splitted[1];
        }
      }
      assert result == TitleStem(channel.value) by {
        SplitHead(channel.value, '@');
      }

      var last := LastIndexOf(result, '-');
      if last > -1 {
        CutStem(channel.value, result);
        result := result[..last];
      }
    }
  }

  /** GetChannelTitle's last step: cutting the stem before its last `-` keeps a
      substring of the channel that CutAtLastDash describes. */
  lemma CutStem(channel: string, stem: string)
    requires stem == TitleStem(channel) && '-' in stem
    ensures var title := stem[..LastIndexOf(stem, '-')];
            IsInfix(title, channel) && CutAtLastDash(stem, title)
  {
    var last := LastIndexOf(stem, '-');
    LastIndexOfSplits(stem, '-');
    assert Substring(stem, 0, last) == stem[..last];
    InfixTransitive(stem[..last], stem, channel);
  }

  /** Titled allows one title per channel: the title is a function of it. */
  lemma TitledUnique(channel: NullableString, t1: string, t2: string)
    requires Titled(channel, t1) && Titled(channel, t2)
    ensures t1 == t2
  {
    if !IsNullOrWhiteSpace(channel) {
      var stem := TitleStem(channel.value);
      if '-' in stem {
        SplitsAtLastUnique(stem, '-', t1, stem[|t1| + 1..], t2, stem[|t2| + 1..]);
      }
    }
  }

  /** For a channel TECH/TRACK@CONTEXT whose technology and track hold neither
      `/` nor `@`, the stem is the track. */
  lemma TitleStemOfChannel(tech: string, track: string, context: string)
    requires '/' !in tech && '@' !in tech && '/' !in track && '@' !in track
    ensures TitleStem(tech + "/" + track + "@" + context) == track
  {
    var head := tech + "/" + track;
    assert '@' !in head;
    SplitConcat(head, '@', context);
    assert tech + "/" + track + "@" + context == head + ['@'] + context;
    SplitHead(context, '@');
    SplitConcat(tech, '/', track);
    SplitHead(track, '/');
  }

  /** The title of TECH/STEM-SUFFIX@CONTEXT, `title` being what GetChannelTitle
      gives for it, when the technology holds none of `/`, `@`, the stem none of
      `/`, `@`, and the suffix none of `/`, `@`, `-`: the stem. The `/` keeps
      such a channel from being blank, whatever the technology is. */
  lemma TitleOfChannel(tech: string, stem: string, suffix: string, context: string, title: string)
    requires '/' !in tech && '@' !in tech
    requires '/' !in stem && '@' !in stem
    requires '/' !in suffix && '@' !in suffix && '-' !in suffix
    requires Titled(Some(tech + "/" + (stem + "-" + suffix) + "@" + context), title)
    ensures title == stem
  {
    var track := stem + "-" + suffix;
    var channel := tech + "/" + track + "@" + context;
    assert !IsNullOrWhiteSpace(Some(channel)) by {
      assert channel[|tech|] == '/';
      NotAllWhiteSpace(channel, '/');
    }
    assert TitleStem(channel) == track && track == stem + ['-'] + suffix by {
      TitleStemOfChannel(tech, track, context);
    }
    SplitsAtLastUnique(track, '-', title, track[|title| + 1..], stem, suffix);
  }

  /** The parts of the two channels documented beside GetChannelTitle meet
      TitleOfChannel's conditions. */
  lemma TitleExampleParts()
    ensures '/' !in "LOCAL" && '@' !in "LOCAL" && '/' !in "PJSIP" && '@' !in "PJSIP"
    ensures '/' !in "2344534fgdfgdfg" && '@' !in "2344534fgdfgdfg"
    ensures '/' !in "out-datora" && '@' !in "out-datora"
    ensures '/' !in "4543611" && '@' !in "4543611" && '-' !in "4543611"
  {
  }

  /** The first documented title: LOCAL/2344534fgdfgdfg-4543611@from-queues is
      titled 2344534fgdfgdfg. */
  lemma LocalTitleExample(title: string)
    requires Titled(Some("LOCAL" + "/" + ("2344534fgdfgdfg" + "-" + "4543611") + "@" + "from-queues"), title)
    ensures title == "2344534fgdfgdfg"
  {
    TitleExampleParts();
    TitleOfChannel("LOCAL", "2344534fgdfgdfg", "4543611", "from-queues", title);
  }

  /** The second documented title: PJSIP/out-datora-4543611@external is titled
      out-datora. */
  lemma PjsipTitleExample(title: string)
    requires Titled(Some("PJSIP" + "/" + ("out-datora" + "-" + "4543611") + "@" + "external"), title)
    ensures title == "out-datora"
  {
    TitleExampleParts();
    TitleOfChannel("PJSIP", "out-datora", "4543611", "external", title);
  }
}
