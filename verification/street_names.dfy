/** ColumbiaAbbreviateStreetNamesCheck: a car-navigable edge whose name ends
    in a spelled-out suffix after "<street type> <number>" is flagged when
    its name differs from the abbreviated form. The regular expression
    match is the regex engine's; the model receives its split of the name
    into the name group and the suffix group. */
module StreetNames {
  import opened Common

  const StreetTypesDefault: seq<string> := ["Calle", "Carrera", "Transversal", "Diagonal"]
  const NameKey := "name"
  const AltNameKey := "alt_name"

  /** The pattern text compiled from the configured street types: the name
      group (anything, a street type, a space and digits), then a suffix of
      letters and spaces. */
  function StreetNamePattern(streetTypes: seq<string>): (pattern: string) {
    "(.*(" + Join(streetTypes, "|") + ") \\d+)([\\p{Alpha} ]*)"
  }

  /** Every configured street type appears among the pattern's alternatives. */
  lemma PatternListsEveryType(streetTypes: seq<string>, i: int)
    requires 0 <= i < |streetTypes|
    ensures IsSubstring(streetTypes[i], StreetNamePattern(streetTypes))
  {
    JoinContainsParts(streetTypes, "|", i);
    var joined := Join(streetTypes, "|");
    SubstringAfter("(.*(", streetTypes[i], joined);
    SubstringOfConcat("", "(.*(" + joined, ") \\d+)([\\p{Alpha} ]*)");
    assert StreetNamePattern(streetTypes) == "(.*(" + joined + ") \\d+)([\\p{Alpha} ]*)";
    SubstringPrefix(streetTypes[i], "(.*(" + joined, ") \\d+)([\\p{Alpha} ]*)");
  }

  /** The default street types are all alternatives of the default pattern. */
  lemma DefaultPatternListsTypes()
    ensures forall i :: 0 <= i < |StreetTypesDefault| ==>
              IsSubstring(StreetTypesDefault[i], StreetNamePattern(StreetTypesDefault))
  {
    forall i | 0 <= i < |StreetTypesDefault|
      ensures IsSubstring(StreetTypesDefault[i], StreetNamePattern(StreetTypesDefault))
    {
      PatternListsEveryType(StreetTypesDefault, i);
    }
  }

  /** Text that occurs in a prefix occurs in the whole. */
  lemma {:induction false} SubstringPrefix(sub: string, s: string, suffix: string)
    requires IsSubstring(sub, s)
    ensures IsSubstring(sub, s + suffix)
    decreases |s|
  {
    if |sub| <= |s| && s[..|sub|] == sub {
      assert (s + suffix)[..|sub|] == sub;
    } else {
      SubstringPrefix(sub, s[1..], suffix);
      assert (s + suffix)[1..] == s[1..] + suffix;
    }
  }

  /** The groups of a successful whole-name match. */
  datatype Split = Split(nameGroup: string, suffix: string)

  /** The suffix group's character class: ASCII letters and spaces. */
  predicate SuffixChar(c: char) {
    'a' <= c <= 'z' || 'A' <= c <= 'Z' || c == ' '
  }

  /** `\d`: an ASCII digit. */
  predicate Digit(c: char) {
    '0' <= c <= '9'
  }

  /** What a whole-name match promises: the name group and the suffix make
      up the name, the name group ends in the digits of `\d+`, and the
      suffix is letters and spaces. */
  predicate SplitOf(name: string, m: Split) {
    && name == m.nameGroup + m.suffix
    && |m.nameGroup| > 0 && Digit(m.nameGroup[|m.nameGroup| - 1])
    && forall i :: 0 <= i < |m.suffix| ==> SuffixChar(m.suffix[i])
  }

  /** The name group cannot end inside another split's suffix, which holds
      no digit. */
  lemma SplitPointAtMost(name: string, a: Split, b: Split)
    requires SplitOf(name, a) && SplitOf(name, b)
    ensures |b.nameGroup| <= |a.nameGroup|
  {
    assert forall k :: |a.nameGroup| <= k < |name| ==> !Digit(name[k]) by {
      forall k | |a.nameGroup| <= k < |name| ensures !Digit(name[k]) {
        assert name[k] == a.suffix[k - |a.nameGroup|];
      }
    }
    assert Digit(name[|b.nameGroup| - 1]) by {
      assert name[|b.nameGroup| - 1] == b.nameGroup[|b.nameGroup| - 1];
    }
  }

  /** A name has at most one split, as the regular expression's groups are
      determined by the name: the name group ends at the last digit. */
  lemma SplitUnique(name: string, a: Split, b: Split)
    requires SplitOf(name, a) && SplitOf(name, b)
    ensures a == b
  {
    SplitPointAtMost(name, a, b);
    SplitPointAtMost(name, b, a);
    assert a.nameGroup == name[..|a.nameGroup|] && b.nameGroup == name[..|b.nameGroup|];
    assert a.suffix == name[|a.nameGroup|..] && b.suffix == name[|b.nameGroup|..];
  }

  /** `StringUtils.capitalize` on ASCII: the first letter upper-cased. */
  function Capitalize(s: string): (r: string)
    ensures |r| == |s|
    ensures |s| > 0 ==> r[0] == UpperChar(s[0]) && r[1..] == s[1..]
  {
    if |s| == 0 then s else [UpperChar(s[0])] + s[1..]
  }

  /** The abbreviated suffix: lower-cased, spaces dropped, every "sur"
      shortened to "s", then capitalised. */
  function AbbreviateSuffix(suffix: string): (r: string)
    ensures ' ' !in r
    ensures |r| <= |suffix|
  {
    var lowered := ToLower(suffix);
    var joined := Replace(lowered, " ", "");
    var shortened := Replace(joined, "sur", "s");
    ReplaceRemovesChar(lowered, ' ', "");
    ReplaceKeepsOut(joined, "sur", "s", ' ');
    ReplaceNoLonger(lowered, " ", "");
    ReplaceNoLonger(joined, "sur", "s");
    assert forall c :: UpperChar(c) == ' ' ==> c == ' ';
    Capitalize(shortened)
  }

  function AbbreviatedName(m: Split): (r: string)
    ensures |r| <= |m.nameGroup + m.suffix|
    ensures |m.nameGroup| <= |r| && r[..|m.nameGroup|] == m.nameGroup
  {
    m.nameGroup + AbbreviateSuffix(m.suffix)
  }

  /** flag: a matching name is flagged exactly when it is not already its
      own abbreviation. `m` is None when the name does not match. */
  function FlagName(name: string, m: Option<Split>): (flagged: bool)
    requires m.Some? ==> SplitOf(name, m.value)
    ensures flagged ==> m.Some?
    ensures m.Some? ==> (flagged <==> name != AbbreviatedName(m.value))
  {
    match m
    case None => false
    case Some(split) => name != AbbreviatedName(split)
  }

  /** Whether a matching name is flagged depends on its suffix alone: the
      name group is kept as it is. */
  lemma FlaggedIffSuffixChanges(name: string, m: Split)
    requires SplitOf(name, m)
    ensures FlagName(name, Some(m)) <==> m.suffix != AbbreviateSuffix(m.suffix)
  {
    if m.suffix != AbbreviateSuffix(m.suffix) {
      var abbreviated := AbbreviatedName(m);
      assert abbreviated[|m.nameGroup|..] == AbbreviateSuffix(m.suffix);
      assert name[|m.nameGroup|..] == m.suffix;
    }
  }

  /** "Calle 10 Sur" splits as "Calle 10" and " Sur", and is abbreviated to
      "Calle 10S"; that abbreviation is not flagged again. */
  lemma SurExample()
    ensures AbbreviateSuffix(" Sur") == "S"
    ensures AbbreviatedName(Split("Calle 10", " Sur")) == "Calle 10S"
    ensures FlagName("Calle 10 Sur", Some(Split("Calle 10", " Sur")))
    ensures !FlagName("Calle 10S", Some(Split("Calle 10", "S")))
  {
    assert ToLower(" Sur") == " sur";
    assert Replace(" sur", " ", "") == "sur" by {
      assert " sur"[..1] == " ";
      assert " sur"[1..] == "sur";
      assert "sur"[..1] == ['s'];
      assert "sur"[1..] == "ur" && "ur"[..1] == ['u'];
      assert "ur"[1..] == "r" && "r"[..1] == ['r'];
    }
    assert Replace("sur", "sur", "s") == "s" by {
      assert "sur"[..3] == "sur";
    }
    assert ToLower("S") == "s";
    assert Replace("s", " ", "") == "s" by {
      assert "s"[..1] == ['s'];
    }
  }

  // ----- the check over a run of ways -----

  /** An atlas way as the check sees it; whether it is an edge and whether
      its highway tag is car-navigable are the atlas's answers. */
  datatype Way = Way(osmId: int, isEdge: bool, carNavigable: bool, tags: map<string, string>)

  /** validCheckForObject: a car-navigable edge with both a name and an alt
      name, whose OSM id this check has not flagged yet. */
  predicate ValidForCheck(w: Way, flagged: set<int>) {
    w.isEdge && w.carNavigable && NameKey in w.tags && AltNameKey in w.tags && w.osmId !in flagged
  }

  /** The regex engine's answer, constrained to be a split of the name. */
  ghost predicate SoundMatcher(matcher: string -> Option<Split>) {
    forall name :: matcher(name).Some? ==> SplitOf(name, matcher(name).value)
  }

  function Elements(ids: seq<int>): set<int> {
    set i | 0 <= i < |ids| :: ids[i]
  }

  lemma ElementsCons(id: int, ids: seq<int>)
    ensures Elements([id] + ids) == {id} + Elements(ids)
  {
    var whole := [id] + ids;
    forall x | x in Elements(ids) ensures x in Elements(whole) {
      var i :| 0 <= i < |ids| && ids[i] == x;
      assert whole[i + 1] == x;
    }
    assert whole[0] == id;
  }

  datatype Outcome = Outcome(flaggedIds: seq<int>, flagged: set<int>)

  /** One way: the validity test, then the flag, which marks the OSM id. */
  function CheckWay(w: Way, flagged: set<int>, matcher: string -> Option<Split>): (r: Option<int>)
    requires SoundMatcher(matcher)
    ensures r.Some? <==> ValidForCheck(w, flagged) && FlagName(w.tags[NameKey], matcher(w.tags[NameKey]))
    ensures r.Some? ==> r.value == w.osmId && r.value !in flagged
  {
    if ValidForCheck(w, flagged) && FlagName(w.tags[NameKey], matcher(w.tags[NameKey])) then Some(w.osmId)
    else None
  }

  /** The check over a sequence of ways, each OSM id flagged at most once:
      the flagged ids are distinct, none was flagged before, and the marked
      set grows by exactly them. */
  function RunCheck(ways: seq<Way>, flagged: set<int>, matcher: string -> Option<Split>): (r: Outcome)
    requires SoundMatcher(matcher)
    ensures forall i, j :: 0 <= i < j < |r.flaggedIds| ==> r.flaggedIds[i] != r.flaggedIds[j]
    ensures forall i :: 0 <= i < |r.flaggedIds| ==> r.flaggedIds[i] !in flagged
    ensures r.flagged == flagged + Elements(r.flaggedIds)
    ensures |r.flaggedIds| <= |ways|
    decreases |ways|
  {
    if |ways| == 0 then Outcome([], flagged)
    else
      match CheckWay(ways[0], flagged, matcher)
      case None => RunCheck(ways[1..], flagged, matcher)
      case Some(id) =>
        var rest := RunCheck(ways[1..], flagged + {id}, matcher);
        var ids := [id] + rest.flaggedIds;
        ElementsCons(id, rest.flaggedIds);
        Outcome(ids, rest.flagged)
  }

  /** A way whose name does not match is never flagged. */
  lemma UnmatchedNeverFlagged(w: Way, flagged: set<int>, matcher: string -> Option<Split>)
    requires SoundMatcher(matcher)
    requires NameKey in w.tags && matcher(w.tags[NameKey]).None?
    ensures CheckWay(w, flagged, matcher).None?
  {
  }

  /** Only car-navigable edges carrying both a name and an alt name are
      considered. */
  lemma NeedsNameAndAltName(w: Way, flagged: set<int>, matcher: string -> Option<Split>)
    requires SoundMatcher(matcher)
    requires !w.isEdge || !w.carNavigable || NameKey !in w.tags || AltNameKey !in w.tags
    ensures CheckWay(w, flagged, matcher).None?
  {
  }

  /** The same way seen twice is flagged at most once. */
  lemma FlaggedOnce(w: Way, flagged: set<int>, matcher: string -> Option<Split>)
    requires SoundMatcher(matcher)
    ensures |RunCheck([w, w], flagged, matcher).flaggedIds| <= 1
  {
    assert [w, w][1..] == [w];
    if CheckWay(w, flagged, matcher).Some? {
      assert CheckWay(w, flagged + {w.osmId}, matcher).None?;
    }
  }
}
