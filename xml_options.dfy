/** The coercion rule handed to the XML parser (`isArray`), and how the parser applies it
    when it stores the occurrences of one tag under their parent. */
module XmlOptions {

  /** The tag name the rule exempts, at whatever depth it occurs. */
  const CoverageTag: string := "coverage"

  /** `isArray(name, _, _, isAttribute)`: store this tag as a list even when it occurs once. */
  predicate IsArray(name: string, isAttribute: bool): (forced: bool)
    ensures isAttribute ==> !forced
    ensures name == CoverageTag ==> !forced
    ensures !isAttribute && name != CoverageTag ==> forced
  {
    !isAttribute && name != CoverageTag
  }

  /** What a parent holds under one key: nothing, one bare value, or a list. */
  datatype Slot<V> = Absent | Single(value: V) | Many(values: seq<V>)

  /** Storing one more occurrence: a first one becomes a list only when the rule forces it;
      a second one always turns the slot into a list. */
  function Place<V>(slot: Slot<V>, v: V, forceArray: bool): Slot<V>
  {
    match slot
    case Absent => if forceArray then Many([v]) else Single(v)
    case Single(u) => Many([u, v])
    case Many(vs) => Many(vs + [v])
  }

  /** The slot after storing every occurrence of a tag, in document order. */
  function Collect<V>(occurrences: seq<V>, forceArray: bool): Slot<V>
    decreases |occurrences|
  {
    if occurrences == [] then Absent
    else Place(Collect(occurrences[..|occurrences| - 1], forceArray), occurrences[|occurrences| - 1], forceArray)
  }

  /** A tag that occurs is stored as the list of all its occurrences, in order, when the
      rule forces lists or when it occurs more than once, and as a bare value otherwise. */
  lemma {:induction false} CollectShape<V>(occurrences: seq<V>, forceArray: bool)
    ensures Collect(occurrences, forceArray) ==
      if occurrences == [] then Absent
      else if forceArray || |occurrences| > 1 then Many(occurrences)
      else Single(occurrences[0])
    decreases |occurrences|
  {
    if occurrences != [] {
      var init := occurrences[..|occurrences| - 1];
      CollectShape(init, forceArray);
      assert occurrences == init + [occurrences[|occurrences| - 1]];
      if |init| == 1 {
        assert occurrences == [init[0], occurrences[1]];
      }
    }
  }

  /** Every element not named `coverage` is a list, even when it occurs exactly once. */
  lemma ElementIsList<V>(name: string, occurrences: seq<V>)
    requires name != CoverageTag && occurrences != []
    ensures Collect(occurrences, IsArray(name, false)) == Many(occurrences)
  {
    CollectShape(occurrences, IsArray(name, false));
  }

  /** A single `coverage` element, at whatever depth, stays a bare value. */
  lemma CoverageIsScalar<V>(v: V)
    ensures Collect([v], IsArray(CoverageTag, false)) == Single(v)
  {
    CollectShape([v], false);
  }

  /** An attribute keeps its bare value. */
  lemma AttributeIsScalar<V>(name: string, v: V)
    ensures Collect([v], IsArray(name, true)) == Single(v)
  {
    CollectShape([v], false);
  }
}
