/**
 * The metric-column descriptor parser of a CNV header (class
 * MetricInfoReader). A descriptor reads `name: type, other, ... [unit]`;
 * the constructor splits it once and stores four read-only fields.
 */
module MetricInfoReader {
  import opened Wrappers
  import opened PhpStrings
  import opened UnitPattern

  /**
   * The parsed descriptor. The getters getName, getUnit, getType and
   * getOther are the destructors `name`, `unit`, `typ` and `other`; a field
   * the constructor never set reads as `None`, as PHP's `?? null` does.
   */
  datatype MetricInfo = MetricInfo(name: string, unit: Option<string>, typ: Option<string>, other: seq<string>)

  /**
   * retrieveUnit: the trimmed interior of the leftmost match of the unit
   * pattern, or `None` when the pattern does not match anywhere.
   */
  function RetrieveUnit(info: string): (u: Option<string>)
    ensures u.None? <==> forall i, k :: !GroupAt(info, i, k)
    ensures u.Some? ==> exists i, k {:trigger GroupAt(info, i, k)} ::
      GroupAt(info, i, k) && (forall i', k' :: GroupAt(info, i', k') ==> i <= i') &&
      u.value == Trim(info[i + 1..k])
  {
    match FindGroup(info, 0)
    case None => None
    case Some(g) => Some(Trim(info[g.0 + 1..g.1]))
  }

  /**
   * The comma sections of the info segment once every match of the unit
   * pattern is gone, each trimmed, with the ones that are empty or "0" dropped.
   */
  function Sections(info: string): seq<string>
  {
    KeepNonEmpty(TrimAll(Explode(RemoveUnits(info), ',')))
  }

  /** Every section is trimmed, is neither "" nor "0", and holds no comma. */
  lemma SectionsWellFormed(info: string)
    ensures forall j :: 0 <= j < |Sections(info)| ==>
      IsTrimmed(Sections(info)[j]) && !PhpEmpty(Sections(info)[j]) && ',' !in Sections(info)[j]
  {
    var pieces := Explode(RemoveUnits(info), ',');
    var trimmed := TrimAll(pieces);
    var ts := Sections(info);
    KeepNonEmptySound(trimmed);
    forall j | 0 <= j < |ts| ensures IsTrimmed(ts[j]) && !PhpEmpty(ts[j]) && ',' !in ts[j] {
      var i :| 0 <= i < |trimmed| && trimmed[i] == ts[j];
      TrimIdempotent(pieces[i]);
      TrimAvoids(pieces[i], ',');
    }
  }

  /** A character absent from the info segment appears in none of its sections. */
  lemma SectionsAvoid(info: string, ch: char)
    requires ch !in info
    ensures forall j :: 0 <= j < |Sections(info)| ==> ch !in Sections(info)[j]
  {
    var stripped := RemoveUnits(info);
    RemoveUnitsAvoids(info, ch);
    ExplodeAvoids(stripped, ',', ch);
    FilterAvoids(Explode(stripped, ','), ch);
  }

  /** Trimming and filtering pieces free of `ch` leaves sections free of `ch`. */
  lemma FilterAvoids(pieces: seq<string>, ch: char)
    requires forall i :: 0 <= i < |pieces| ==> ch !in pieces[i]
    ensures forall j :: 0 <= j < |KeepNonEmpty(TrimAll(pieces))| ==> ch !in KeepNonEmpty(TrimAll(pieces))[j]
  {
    var trimmed := TrimAll(pieces);
    forall i | 0 <= i < |trimmed| ensures ch !in trimmed[i] {
      TrimAvoids(pieces[i], ch);
    }
    var ts := KeepNonEmpty(trimmed);
    KeepNonEmptySound(trimmed);
    forall j | 0 <= j < |ts| ensures ch !in ts[j] {
      var i :| 0 <= i < |trimmed| && trimmed[i] == ts[j];
    }
  }

  /**
   * The part of the constructor that runs when the descriptor has a colon:
   * the unit from the raw info segment, then the type and the other tags
   * from the sections that survive.
   */
  function Describe(name: string, info: string): (m: MetricInfo)
    ensures m.name == name && m.unit == RetrieveUnit(info)
    ensures m.typ.Some? <==> |Sections(info)| > 0
    ensures m.typ.Some? ==> m.typ.value == Sections(info)[0] && m.other == Sections(info)[1..]
    ensures m.typ.None? ==> m.other == []
  {
    var ts := Sections(info);
    var u := RetrieveUnit(info);
    if |ts| > 0 then
      MetricInfo(name, u, Some(ts[0]), ts[1..])
    else
      MetricInfo(name, u, None, [])
  }

  /** The constructor: parse one descriptor. Total: every string parses. */
  function Parse(line: string): (m: MetricInfo)
    ensures ':' !in m.name && IsTrimmed(m.name)
    ensures ':' !in line ==> m == MetricInfo(Trim(line), None, None, [])
  {
    var tokens := Explode(line, ':');
    var name := Trim(tokens[0]);
    TrimAvoids(tokens[0], ':');
    if |tokens| > 1 then Describe(name, Trim(tokens[1]))
    else MetricInfo(name, None, None, [])
  }

  /**
   * Parse read through the positions of the colons: with `a` the first colon
   * and `b` the second one (or the end of the line), the name comes from
   * `line[..a]` and everything else from `line[a + 1..b]` alone.
   */
  lemma ParseSegments(line: string, a: nat, b: nat)
    requires a < b <= |line| && line[a] == ':' && ':' !in line[..a]
    requires ':' !in line[a + 1..b] && (b < |line| ==> line[b] == ':')
    ensures Parse(line) == Describe(Trim(line[..a]), Trim(line[a + 1..b]))
  {
    ExplodeFirstTwo(line, ':', a, b);
  }

  /**
   * The name is the trimmed text before the first colon, or the whole
   * trimmed line when there is none.
   */
  lemma ParseName(line: string)
    ensures ':' !in line ==> Parse(line).name == Trim(line)
    ensures forall a :: 0 <= a < |line| && line[a] == ':' && ':' !in line[..a] ==>
      Parse(line).name == Trim(line[..a])
  {
    forall a | 0 <= a < |line| && line[a] == ':' && ':' !in line[..a]
      ensures Parse(line).name == Trim(line[..a])
    {
      assert line == line[..a] + [':'] + line[a + 1..];
      ExplodeCons(line[..a], ':', line[a + 1..]);
    }
  }

  /** One colon: the name and the info segment are the two sides. */
  lemma ParseOneColon(prefix: string, segment: string)
    requires ':' !in prefix && ':' !in segment
    ensures Parse(prefix + ":" + segment) == Describe(Trim(prefix), Trim(segment))
  {
    var line := prefix + ":" + segment;
    var a := |prefix|;
    assert line[..a] == prefix && line[a] == ':' && line[a + 1..] == segment;
    ParseSegments(line, a, |line|);
  }

  /** Two colons: the info segment stops at the second one. */
  lemma ParseTwoColons(prefix: string, segment: string, tail: string)
    requires ':' !in prefix && ':' !in segment
    ensures Parse(prefix + ":" + segment + ":" + tail) == Describe(Trim(prefix), Trim(segment))
  {
    var short := prefix + ":" + segment;
    var line := short + ":" + tail;
    var a, b := |prefix|, |short|;
    assert line[..b] == short && line[b] == ':';
    assert line[..a] == prefix by { assert line[..a] == line[..b][..a]; }
    assert line[a + 1..b] == segment by { assert line[a + 1..b] == line[..b][a + 1..]; }
    ParseSegments(line, a, b);
  }

  /** Text after a second colon is never looked at. */
  lemma ParseIgnoresAfterSecondColon(prefix: string, segment: string, tail: string)
    requires ':' !in prefix && ':' !in segment
    ensures Parse(prefix + ":" + segment + ":" + tail) == Parse(prefix + ":" + segment)
  {
    ParseOneColon(prefix, segment);
    ParseTwoColons(prefix, segment, tail);
  }

  /**
   * Every tag kept as type or other is trimmed, is neither "" nor "0", and
   * holds neither a comma nor a colon.
   */
  lemma ParseTags(line: string)
    ensures var m := Parse(line);
      forall t :: (m.typ == Some(t) || t in m.other) ==>
        IsTrimmed(t) && !PhpEmpty(t) && ',' !in t && ':' !in t
  {
    var tokens := Explode(line, ':');
    if |tokens| > 1 {
      var info := Trim(tokens[1]);
      var ts := Sections(info);
      var m := Parse(line);
      forall t | m.typ == Some(t) || t in m.other
        ensures IsTrimmed(t) && !PhpEmpty(t) && ',' !in t && ':' !in t
      {
        assert t in ts by {
          assert ts == [m.typ.value] + m.other;
        }
        var j :| 0 <= j < |ts| && ts[j] == t;
        assert ':' !in tokens[1];
        TrimAvoids(tokens[1], ':');
        SectionsAvoid(info, ':');
        SectionsWellFormed(info);
      }
    }
  }
}
