/** A station: the name of the city it is in and its distance from another
    station, both of which can be overwritten after construction. Two
    stations are equal when both fields are, and a station prints as
    "(name, distance)". */
module Stations {
  import opened Results
  import opened JavaInt

  class Station {
    var name: string
    var dist: Int32

    constructor (name: string, dist: Int32)
      ensures GetCityName() == name && GetDistance() == dist
    {
      this.name := name;
      this.dist := dist;
    }

    function GetCityName(): string
      reads this
    {
      name
    }

    method SetCityName(cityName: string)
      modifies this
      ensures GetCityName() == cityName
      ensures GetDistance() == old(GetDistance())
    {
      name := cityName;
    }

    function GetDistance(): Int32
      reads this
    {
      dist
    }

    method SetDistance(distance: Int32)
      modifies this
      ensures GetDistance() == distance
      ensures GetCityName() == old(GetCityName())
    {
      dist := distance;
    }

    /** `equals`: a station is never equal to null, and otherwise equal to
        another exactly when the names and the distances agree. */
    predicate Equals(other: Station?)
      reads this, other
    {
      other != null && GetCityName() == other.GetCityName() && GetDistance() == other.GetDistance()
    }

    /** `toString`. */
    function ToString(): string
      reads this
    {
      StationText(GetCityName(), GetDistance())
    }
  }

  /** The text "(" + name + ", " + distance + ")". */
  function StationText(name: string, dist: int): string {
    "(" + name + ", " + JavaInt.ToString(dist) + ")"
  }

  /** The index of the last comma in `s`, if there is one. */
  function LastComma(s: string): (r: Option<nat>)
    ensures r.Some? ==> r.value < |s| && s[r.value] == ','
    decreases |s|
  {
    if s == [] then None
    else if s[|s| - 1] == ',' then Some(|s| - 1)
    else LastComma(s[..|s| - 1])
  }

  /** Reads a station's text back: the name is everything between the
      opening parenthesis and the last ", ", the distance what follows it. */
  function ParseStationText(s: string): Option<(string, Int32)> {
    if |s| < 2 || s[0] != '(' || s[|s| - 1] != ')' then None
    else
      var inner := s[1..|s| - 1];
      match LastComma(inner)
      case None => None
      case Some(i) =>
        if i + 1 < |inner| && inner[i + 1] == ' ' then
          match ParseInt(inner[i + 2..])
          case None => None
          case Some(d) => Some((inner[..i], d))
        else None
  }

  lemma {:induction false} LastCommaSkipsTail(a: string, t: string)
    requires ',' !in t
    ensures LastComma(a + t) == LastComma(a)
    decreases |t|
  {
    if t != [] {
      var u := a + t;
      assert u[..|u| - 1] == a + t[..|t| - 1];
      LastCommaSkipsTail(a, t[..|t| - 1]);
    } else {
      assert a + t == a;
    }
  }

  /** In the text between the parentheses, the last comma is the one after
      the name, because a printed distance holds no comma. */
  lemma LastCommaEndsName(name: string, dist: int)
    ensures var s := StationText(name, dist);
            LastComma(s[1..|s| - 1]) == Some(|name|)
  {
    var digits := JavaInt.ToString(dist);
    var s := StationText(name, dist);
    assert s[1..|s| - 1] == (name + [',']) + (" " + digits);
    ToStringHasNoComma(dist);
    LastCommaSkipsTail(name + [','], " " + digits);
  }

  /** The name ends at the last ", " whatever commas the name itself
      contains, so the text reads back to the name and the distance. */
  lemma StationTextRoundTrip(name: string, dist: Int32)
    ensures ParseStationText(StationText(name, dist)) == Some((name, dist))
  {
    var digits := JavaInt.ToString(dist);
    var s := StationText(name, dist);
    var inner := s[1..|s| - 1];
    assert inner == name + ", " + digits;
    LastCommaEndsName(name, dist);
    assert inner[|name| + 2..] == digits;
    assert inner[..|name|] == name;
    ParseIntOfToString(dist);
  }

  /** Different stations print differently. */
  lemma StationTextInjective(n1: string, d1: Int32, n2: string, d2: Int32)
    requires StationText(n1, d1) == StationText(n2, d2)
    ensures n1 == n2 && d1 == d2
  {
    StationTextRoundTrip(n1, d1);
    StationTextRoundTrip(n2, d2);
  }

  /** Two stations are equal exactly when they print the same. */
  lemma EqualsIffSameText(a: Station, b: Station)
    ensures a.Equals(b) <==> a.ToString() == b.ToString()
  {
    if a.ToString() == b.ToString() {
      StationTextInjective(a.GetCityName(), a.GetDistance(), b.GetCityName(), b.GetDistance());
    }
  }

  /** `equals` is an equivalence on stations and rejects null. */
  lemma EqualsIsEquivalence(a: Station, b: Station, c: Station)
    ensures a.Equals(a)
    ensures a.Equals(b) ==> b.Equals(a)
    ensures a.Equals(b) && b.Equals(c) ==> a.Equals(c)
    ensures !a.Equals(null)
  {
  }

  /** The same city at another distance is a different station. */
  lemma DistanceDistinguishes(a: Station, b: Station)
    requires a.GetCityName() == b.GetCityName() && a.GetDistance() != b.GetDistance()
    ensures !a.Equals(b) && !b.Equals(a)
  {
  }
}
