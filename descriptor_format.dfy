/**
 * The descriptor layout written out: `name: type, other, ... [unit]`. The
 * parser in MetricInfoReader is a left inverse of this printer on every
 * record whose fields could have come out of it.
 */
module DescriptorFormat {
  import opened Wrappers
  import opened PhpStrings
  import opened UnitPattern
  import opened MetricInfoReader

  /** A type or other tag as the parser hands it out, and free of brackets. */
  predicate IsTag(t: string)
  {
    IsTrimmed(t) && !PhpEmpty(t) && ',' !in t && ':' !in t && '[' !in t && ']' !in t
  }

  /** A unit the parser can return: the trimmed interior of a match of the unit pattern. */
  predicate IsUnitText(u: string)
  {
    IsTrimmed(u) && ':' !in u && '[' !in u && ']' !in u
  }

  predicate AllTags(ts: seq<string>)
  {
    forall j :: 0 <= j < |ts| ==> IsTag(ts[j])
  }

  /** The records the printer below can lay out without losing anything. */
  predicate WellFormed(m: MetricInfo)
  {
    IsTrimmed(m.name) && ':' !in m.name &&
    (m.unit.Some? ==> IsUnitText(m.unit.value)) &&
    (m.typ.Some? ==> IsTag(m.typ.value)) &&
    AllTags(m.other) &&
    (m.typ.None? ==> m.other == [])
  }

  /** `ts[0], ts[1], ...` */
  function JoinTags(ts: seq<string>): string
    requires |ts| >= 1
  {
    if |ts| == 1 then ts[0] else ts[0] + ", " + JoinTags(ts[1..])
  }

  /** Everything after the colon. */
  function InfoText(m: MetricInfo): string
  {
    var tags := if m.typ.Some? then JoinTags([m.typ.value] + m.other) else "";
    match m.unit
    case None => tags
    case Some(u) => (if m.typ.Some? then tags + " " else tags) + "[" + u + "]"
  }

  /** The descriptor for `m`; a bare name needs no colon. */
  function Format(m: MetricInfo): string
  {
    if m.typ.None? && m.unit.None? then m.name else m.name + ": " + InfoText(m)
  }

  // ---------------------------------------------------------------------
  // The joined tags
  // ---------------------------------------------------------------------

  lemma {:induction false} JoinTagsAvoids(ts: seq<string>, ch: char)
    requires |ts| >= 1 && ch != ',' && ch != ' '
    requires forall j :: 0 <= j < |ts| ==> ch !in ts[j]
    ensures ch !in JoinTags(ts)
  {
    if |ts| > 1 {
      JoinTagsAvoids(ts[1..], ch);
    }
  }

  lemma {:induction false} JoinTagsTrimmed(ts: seq<string>)
    requires |ts| >= 1 && AllTags(ts)
    ensures JoinTags(ts) != [] && IsTrimmed(JoinTags(ts))
  {
    if |ts| > 1 {
      JoinTagsTrimmed(ts[1..]);
      var rest := JoinTags(ts[1..]);
      var s := ts[0] + ", " + rest;
      assert s[0] == ts[0][0];
      assert s[|s| - 1] == rest[|rest| - 1];
    }
  }

  /** The first comma of the joined tags ends the first tag. */
  lemma ExplodeJoinTags(lead: string, ts: seq<string>, pad: string)
    requires |ts| > 1 && AllSpace(lead) && ',' !in ts[0]
    ensures Explode(lead + JoinTags(ts) + pad, ',') ==
      [lead + ts[0]] + Explode(" " + JoinTags(ts[1..]) + pad, ',')
  {
    var head, rest := lead + ts[0], " " + JoinTags(ts[1..]) + pad;
    assert lead + JoinTags(ts) + pad == head + [','] + rest;
    assert ',' !in head;
    ExplodeCons(head, ',', rest);
  }

  /**
   * Splitting the joined tags at the commas and trimming every piece gives
   * the tags back, whatever blank padding surrounds the whole.
   */
  lemma {:induction false} TrimAllJoinTags(lead: string, ts: seq<string>, pad: string)
    requires |ts| >= 1 && AllTags(ts) && AllSpace(lead) && AllSpace(pad)
    ensures TrimAll(Explode(lead + JoinTags(ts) + pad, ',')) == ts
    decreases |ts|
  {
    if |ts| == 1 {
      assert ',' !in lead + ts[0] + pad;
      TrimUnique(lead, ts[0], pad);
    } else {
      ExplodeJoinTags(lead, ts, pad);
      assert lead + ts[0] == lead + ts[0] + [];
      TrimUnique(lead, ts[0], []);
      assert AllTags(ts[1..]);
      TrimAllJoinTags(" ", ts[1..], pad);
      var pieces := Explode(" " + JoinTags(ts[1..]) + pad, ',');
      assert TrimAll([lead + ts[0]] + pieces) == [ts[0]] + TrimAll(pieces);
    }
  }

  /** Tags all pass the filter. */
  lemma {:induction false} KeepAllTags(ts: seq<string>)
    requires AllTags(ts)
    ensures KeepNonEmpty(ts) == ts
  {
    if ts != [] {
      assert ts[0] == [] + ts[0] + [];
      TrimUnique([], ts[0], []);
      assert AllTags(ts[1..]);
      KeepAllTags(ts[1..]);
    }
  }

  // ---------------------------------------------------------------------
  // Parsing the printed descriptor
  // ---------------------------------------------------------------------

  /** The tags of `m` in the order the printer writes them. */
  function TagList(m: MetricInfo): seq<string>
  {
    if m.typ.Some? then [m.typ.value] + m.other else []
  }

  /** The text in front of the unit group: the joined tags and the blank that follows them. */
  function BeforeUnit(m: MetricInfo): string
  {
    if m.typ.Some? then JoinTags(TagList(m)) + " " else ""
  }

  lemma BeforeUnitFacts(m: MetricInfo)
    requires WellFormed(m)
    ensures AllTags(TagList(m))
    ensures '[' !in BeforeUnit(m) && ':' !in BeforeUnit(m)
  {
    var ts := TagList(m);
    assert AllTags(ts);
    if m.typ.Some? {
      JoinTagsAvoids(ts, '[');
      JoinTagsAvoids(ts, ':');
    }
  }

  /** The info segment holds no colon and no blank at either end. */
  lemma InfoTextShape(m: MetricInfo)
    requires WellFormed(m) && !(m.typ.None? && m.unit.None?)
    ensures ':' !in InfoText(m) && IsTrimmed(InfoText(m))
  {
    var ts := TagList(m);
    BeforeUnitFacts(m);
    if m.typ.Some? {
      JoinTagsAvoids(ts, ':');
      JoinTagsTrimmed(ts);
    }
    var info := InfoText(m);
    if m.unit.Some? {
      var u := m.unit.value;
      assert info == BeforeUnit(m) + "[" + u + "]";
      if m.typ.Some? {
        assert info[0] == JoinTags(ts)[0];
      }
    }
  }

  /** The unit read back is the unit printed. */
  lemma InfoTextUnit(m: MetricInfo)
    requires WellFormed(m)
    ensures RetrieveUnit(InfoText(m)) == m.unit
  {
    var info := InfoText(m);
    var a := BeforeUnit(m);
    BeforeUnitFacts(m);
    match m.unit
    case None =>
      if m.typ.Some? {
        JoinTagsAvoids(TagList(m), '[');
      }
      RemoveUnitsPlain(info);
    case Some(u) =>
      assert info == a + ['['] + u + [']'];
      TrailingGroupFound(a, u);
      assert info[|a| + 1..|a| + |u| + 1] == u;
      assert u == [] + u + [];
      TrimUnique([], u, []);
  }

  /** The blank printed between the tags and the unit group, if both are there. */
  function UnitPad(m: MetricInfo): string
  {
    if m.unit.Some? then " " else ""
  }

  /** Deleting the unit group leaves the joined tags and their padding. */
  lemma InfoTextStripped(m: MetricInfo)
    requires WellFormed(m)
    ensures RemoveUnits(InfoText(m)) == if m.typ.Some? then JoinTags(TagList(m)) + UnitPad(m) else ""
  {
    var info := InfoText(m);
    var a := BeforeUnit(m);
    BeforeUnitFacts(m);
    match m.unit
    case None =>
      if m.typ.Some? {
        JoinTagsAvoids(TagList(m), '[');
      }
      RemoveUnitsPlain(info);
    case Some(u) =>
      assert info == a + ['['] + u + [']'];
      TrailingGroup(a, u);
  }

  /** The sections read back are the tags printed. */
  lemma InfoTextSections(m: MetricInfo)
    requires WellFormed(m)
    ensures Sections(InfoText(m)) == TagList(m)
  {
    var ts := TagList(m);
    var stripped := RemoveUnits(InfoText(m));
    InfoTextStripped(m);
    BeforeUnitFacts(m);
    if m.typ.Some? {
      assert stripped == [] + JoinTags(ts) + UnitPad(m);
      TrimAllJoinTags([], ts, UnitPad(m));
      KeepAllTags(ts);
    } else {
      assert Explode(stripped, ',') == [[]];
      assert TrimAll([[]]) == [[]];
    }
  }

  /** A printed descriptor with a colon splits into the name and the info segment. */
  lemma FormatSplits(m: MetricInfo)
    requires WellFormed(m) && !(m.typ.None? && m.unit.None?)
    ensures Parse(Format(m)) == Describe(m.name, InfoText(m))
  {
    var name, info := m.name, InfoText(m);
    var seg := " " + info;
    InfoTextShape(m);
    assert Format(m) == name + ":" + seg;
    ParseOneColon(name, seg);
    TrimAround(name, info);
  }

  /** The trimmed name and the info segment with its leading blank trim to themselves. */
  lemma TrimAround(name: string, info: string)
    requires IsTrimmed(name) && IsTrimmed(info)
    ensures Trim(name) == name && Trim(" " + info) == info
  {
    assert name == [] + name + [];
    TrimUnique([], name, []);
    assert " " + info == " " + info + [];
    TrimUnique(" ", info, []);
  }

  /** Parsing a printed descriptor gives back the record it was printed from. */
  lemma ParseFormat(m: MetricInfo)
    requires WellFormed(m)
    ensures Parse(Format(m)) == m
  {
    if m.typ.None? && m.unit.None? {
      assert m.name == [] + m.name + [];
      TrimUnique([], m.name, []);
    } else {
      FormatSplits(m);
      InfoTextUnit(m);
      InfoTextSections(m);
    }
  }

  // ---------------------------------------------------------------------
  // Worked descriptors
  // ---------------------------------------------------------------------

  /** The usual shape: a type, one other tag, and a unit in brackets. */
  lemma ParsePressure()
    ensures Parse("prDM: Pressure, Digiquartz [db]") ==
      MetricInfo("prDM", Some("db"), Some("Pressure"), ["Digiquartz"])
  {
    PressureFormat();
    PressureWellFormed();
    ParseFormat(MetricInfo("prDM", Some("db"), Some("Pressure"), ["Digiquartz"]));
  }

  lemma PressureFormat()
    ensures Format(MetricInfo("prDM", Some("db"), Some("Pressure"), ["Digiquartz"])) ==
      "prDM: Pressure, Digiquartz [db]"
  {
    PressureInfo();
    assert "prDM: Pressure, Digiquartz [db]" == "prDM" + ": " + "Pressure, Digiquartz [db]";
  }

  lemma PressureInfo()
    ensures InfoText(MetricInfo("prDM", Some("db"), Some("Pressure"), ["Digiquartz"])) ==
      "Pressure, Digiquartz [db]"
  {
    assert JoinTags(["Pressure", "Digiquartz"]) == "Pressure, Digiquartz";
  }

  lemma PressureWellFormed()
    ensures WellFormed(MetricInfo("prDM", Some("db"), Some("Pressure"), ["Digiquartz"]))
  {
    assert IsTag("Pressure") && IsTag("Digiquartz");
  }

  /** Empty brackets give an empty unit that is present, and no type. */
  lemma ParseEmptyBrackets()
    ensures Parse("n: []") == MetricInfo("n", Some(""), None, [])
  {
    var m := MetricInfo("n", Some(""), None, []);
    assert Format(m) == "n: []";
    ParseFormat(m);
  }

  /** A descriptor without a colon is all name. */
  lemma ParseBareName()
    ensures Parse("Edwin") == MetricInfo("Edwin", None, None, [])
  {
    ParseFormat(MetricInfo("Edwin", None, None, []));
  }
}
