/** InvalidTurnRestrictionCheck: the flag decision for a relation already
    tagged as a turn restriction. Building the restriction's route and the
    heading arithmetic are the atlas library's; the model receives their
    outcomes (the invalid reason, and the straight-on comparisons as booleans). */
module TurnRestriction {
  import opened Common

  const MissingToFromInstruction := "Missing a from and/or to member"
  const UnknownIssue := "Unable to specify issue"
  const RouteInstruction := "There is not a single navigable route to restrict, this restriction may be redundant or need to be split in to multiple relations"
  const BadStraightOnInstruction := "The from member(s) connects to the via or to member(s) at an angle greater than %s degree, which is to high for to be considered straight on."

  const FromRole := "from"
  const ToRole := "to"

  /** The invalid-reason table, entry by entry as it is filled: the key is a
      fragment of the reason the route builder reports. */
  const ReasonTable: seq<(string, string)> := [
    ("Cannot have a route with no members", RouteInstruction),
    ("Restriction relation should not have more than 1 via node.", "A Turn Restriction should only have 1 via Node"),
    ("has same members in from and to, but has no via members to disambiguate.",
     "Via member is required for restrictions with the same to and from members"),
    ("Can't build route from", RouteInstruction),
    ("Unable to build a route from edges", RouteInstruction),
    ("A route was found from start to end, but not every unique edge was used", RouteInstruction),
    ("No edge that connects to the current route", RouteInstruction)
  ]

  /** The keys whose instruction is not the route instruction. */
  const NonRouteKeys: set<string> := {
    "Restriction relation should not have more than 1 via node.",
    "has same members in from and to, but has no via members to disambiguate."
  }

  /** The table is a hash map, so it is iterated in some order of its
      entries that the model does not fix. */
  ghost predicate SameEntries(order: seq<(string, string)>, table: seq<(string, string)>) {
    forall e :: e in order <==> e in table
  }

  /** Where the lookup loop breaks: the first entry whose key occurs in the
      reason, or the end when none does. */
  function MatchIndex(entries: seq<(string, string)>, reason: string): (k: nat)
    ensures k <= |entries|
    ensures k < |entries| ==> IsSubstring(entries[k].0, reason)
    ensures forall j :: 0 <= j < k ==> !IsSubstring(entries[j].0, reason)
  {
    if |entries| == 0 then 0
    else if IsSubstring(entries[0].0, reason) then 0
    else 1 + MatchIndex(entries[1..], reason)
  }

  /** getInstructionFromInvalidReason over one iteration order of the table. */
  function InstructionFromInvalidReason(entries: seq<(string, string)>, reason: string): (instruction: string)
    ensures (forall i :: 0 <= i < |entries| ==> !IsSubstring(entries[i].0, reason)) ==> instruction == UnknownIssue
    ensures (exists i :: 0 <= i < |entries| && IsSubstring(entries[i].0, reason)) ==>
              exists i :: 0 <= i < |entries| && IsSubstring(entries[i].0, reason) && instruction == entries[i].1
    ensures instruction == UnknownIssue || exists i :: 0 <= i < |entries| && instruction == entries[i].1
  {
    var k := MatchIndex(entries, reason);
    if k < |entries| then entries[k].1 else UnknownIssue
  }

  /** Whatever order the table is iterated in, a reason whose matching keys
      all carry the same instruction gets that instruction. */
  lemma UniformMatchesAnyOrder(order: seq<(string, string)>, table: seq<(string, string)>,
                               reason: string, instruction: string)
    requires SameEntries(order, table)
    requires exists e :: e in table && IsSubstring(e.0, reason)
    requires forall e :: e in table && IsSubstring(e.0, reason) ==> e.1 == instruction
    ensures InstructionFromInvalidReason(order, reason) == instruction
  {
    var e :| e in table && IsSubstring(e.0, reason);
    var i :| 0 <= i < |order| && order[i] == e;
    var k := MatchIndex(order, reason);
    assert k <= i;
    assert order[k] in table;
  }

  /** Every route-building reason maps to the route instruction, in any
      iteration order: a reason that contains neither of the two other keys
      gets the route instruction when it contains a route key, and the
      unknown-issue text otherwise. */
  lemma RouteReasonsAgree(order: seq<(string, string)>, reason: string)
    requires SameEntries(order, ReasonTable)
    requires forall key :: key in NonRouteKeys ==> !IsSubstring(key, reason)
    ensures (exists e :: e in ReasonTable && IsSubstring(e.0, reason)) ==>
              InstructionFromInvalidReason(order, reason) == RouteInstruction
    ensures (forall e :: e in ReasonTable ==> !IsSubstring(e.0, reason)) ==>
              InstructionFromInvalidReason(order, reason) == UnknownIssue
  {
    RouteEntries();
    if exists e :: e in ReasonTable && IsSubstring(e.0, reason) {
      UniformMatchesAnyOrder(order, ReasonTable, reason, RouteInstruction);
    } else {
      forall i | 0 <= i < |order| ensures !IsSubstring(order[i].0, reason) {
        assert order[i] in ReasonTable;
      }
    }
  }

  /** Apart from the two non-route keys, every entry maps to the route instruction. */
  lemma RouteEntries()
    ensures forall e :: e in ReasonTable && e.0 !in NonRouteKeys ==> e.1 == RouteInstruction
  {
    forall i | 0 <= i < |ReasonTable| && ReasonTable[i].0 !in NonRouteKeys
      ensures ReasonTable[i].1 == RouteInstruction
    {
      assert i != 1 && i != 2 by {
        assert ReasonTable[1].0 in NonRouteKeys && ReasonTable[2].0 in NonRouteKeys;
      }
    }
  }

  /** Whatever the order, the lookup yields one of the table's instructions
      or the unknown-issue text, and the latter exactly when no key occurs. */
  lemma LookupOutcomes(order: seq<(string, string)>, reason: string)
    requires SameEntries(order, ReasonTable)
    ensures var instruction := InstructionFromInvalidReason(order, reason);
            && (instruction == UnknownIssue <==> forall e :: e in ReasonTable ==> !IsSubstring(e.0, reason))
            && (instruction == UnknownIssue || exists e :: e in ReasonTable && instruction == e.1)
  {
    var instruction := InstructionFromInvalidReason(order, reason);
    var k := MatchIndex(order, reason);
    if k < |order| {
      assert order[k] in ReasonTable;
    }
    if exists e :: e in ReasonTable && IsSubstring(e.0, reason) {
      var e :| e in ReasonTable && IsSubstring(e.0, reason);
      var i :| 0 <= i < |order| && order[i] == e;
      assert k <= i;
      assert order[k] in ReasonTable;
      assert instruction != UnknownIssue;
    }
  }

  // ----- the flag decision -----

  datatype Member = Member(role: string, entity: int)

  datatype Relation = Relation(osmId: int, members: seq<Member>)

  /** The flag: the relation's member entities and the instruction detail
      that is localised with the relation's OSM id. */
  datatype Flag = Flag(osmId: int, entities: set<int>, detail: string)

  /** The outcomes of the heading computations for an otherwise valid
      restriction: whether it is tagged only_straight_on, which headings
      exist, whether there is a via route and whether its polyline has an
      initial heading, and whether from turns into via (or into to) by more
      than the configured threshold. */
  datatype Headings = Headings(
    onlyStraightOn: bool,
    hasFromHeading: bool,
    hasVia: bool,
    viaHasHeading: bool,
    fromViaExceeds: bool,
    hasToHeading: bool,
    fromToExceeds: bool)

  /** The via heading is read with an unchecked `get`, which throws when the
      via route exists but has no initial heading. */
  predicate ViaHeadingMissing(h: Headings) {
    h.hasVia && !h.viaHasHeading
  }

  predicate HasRole(rel: Relation, role: string) {
    exists i :: 0 <= i < |rel.members| && rel.members[i].role == role
  }

  function Entities(rel: Relation): set<int> {
    set i | 0 <= i < |rel.members| :: rel.members[i].entity
  }

  /** A straight-on restriction whose from member turns too sharply: into
      the via route when there is one, else into the to member. */
  predicate BadStraightOn(h: Headings) {
    && h.onlyStraightOn && h.hasFromHeading
    && ((h.hasVia && h.fromViaExceeds) || (!h.hasVia && h.hasToHeading && h.fromToExceeds))
  }

  /** The instruction for a straight-on violation, the threshold in degrees
      written in as text. */
  function StraightOnDetail(thresholdText: string): string {
    Replace(BadStraightOnInstruction, "%s", thresholdText)
  }

  /** flag: the from/to precondition, then validity, then the headings
      (whose via read may throw), then the straight-on test.
      `invalidReason` is None for a valid restriction. */
  function FlagRestriction(order: seq<(string, string)>, rel: Relation, invalidReason: Option<string>,
                           h: Headings, thresholdText: string): (r: Result<Option<Flag>>)
    ensures r.Ok? && r.value.Some? ==> r.value.value.osmId == rel.osmId && r.value.value.entities == Entities(rel)
    ensures !HasRole(rel, FromRole) || !HasRole(rel, ToRole) ==>
              r.Ok? && r.value.Some? && r.value.value.detail == MissingToFromInstruction
    ensures HasRole(rel, FromRole) && HasRole(rel, ToRole) && invalidReason.Some? ==>
              r.Ok? && r.value.Some? && r.value.value.detail == InstructionFromInvalidReason(order, invalidReason.value)
    ensures r.Err? <==> HasRole(rel, FromRole) && HasRole(rel, ToRole) && invalidReason.None? && ViaHeadingMissing(h)
    ensures r.Err? ==> r.failure == NoSuchElement
    ensures HasRole(rel, FromRole) && HasRole(rel, ToRole) && invalidReason.None? && !ViaHeadingMissing(h)
            && BadStraightOn(h) ==>
              r.Ok? && r.value.Some? && r.value.value.detail == StraightOnDetail(thresholdText)
    ensures r == Ok(None) <==>
              HasRole(rel, FromRole) && HasRole(rel, ToRole) && invalidReason.None? && !ViaHeadingMissing(h)
              && !BadStraightOn(h)
  {
    var entities := Entities(rel);
    if !HasRole(rel, FromRole) || !HasRole(rel, ToRole) then
      Ok(Some(Flag(rel.osmId, entities, MissingToFromInstruction)))
    else if invalidReason.Some? then
      Ok(Some(Flag(rel.osmId, entities, InstructionFromInvalidReason(order, invalidReason.value))))
    else if ViaHeadingMissing(h) then
      Err(NoSuchElement)
    else if BadStraightOn(h) then
      Ok(Some(Flag(rel.osmId, entities, StraightOnDetail(thresholdText))))
    else Ok(None)
  }

  /** A relation with from and to members that the route builder rejects
      with a route-building reason is flagged with the route instruction,
      whatever the table's iteration order. */
  lemma InvalidRouteFlagged(order: seq<(string, string)>, rel: Relation, reason: string, h: Headings, thresholdText: string)
    requires SameEntries(order, ReasonTable)
    requires HasRole(rel, FromRole) && HasRole(rel, ToRole)
    requires forall key :: key in NonRouteKeys ==> !IsSubstring(key, reason)
    ensures (exists e :: e in ReasonTable && IsSubstring(e.0, reason)) ==>
              FlagRestriction(order, rel, Some(reason), h, thresholdText)
              == Ok(Some(Flag(rel.osmId, Entities(rel), RouteInstruction)))
  {
    RouteReasonsAgree(order, reason);
  }

  /** Members without a from role are flagged, whatever else holds. */
  lemma NoFromMemberFlagged(order: seq<(string, string)>, osmId: int, entity: int, reason: Option<string>,
                            h: Headings, thresholdText: string)
    ensures var rel := Relation(osmId, [Member(ToRole, entity)]);
            FlagRestriction(order, rel, reason, h, thresholdText) == Ok(Some(Flag(osmId, {entity}, MissingToFromInstruction)))
  {
    var rel := Relation(osmId, [Member(ToRole, entity)]);
    assert !HasRole(rel, FromRole) by {
      assert FromRole != ToRole;
    }
    assert entity in Entities(rel) by {
      assert rel.members[0].entity == entity;
    }
    assert Entities(rel) == {entity};
  }
}
