/** The usual Some/None wrapper, for values the source may leave undefined. */
module Wrappers {
  datatype Option<+T> = None | Some(value: T)
}

/**
 * A country as the Superlatives game sees it, and the catalogue of the
 * eighteen superlative metrics it can ask about.
 */
module Countries {
  import opened Wrappers

  /** Land area is always a positive number of square kilometres. */
  type PositiveReal = r: real | r > 0.0 witness 1.0

  /**
   * One country record of the country data source. `id` is the ISO
   * numeric code (`ccn3`) that guesses are compared by; `latlng` is the
   * capital's (latitude, longitude), absent for some countries; `borders`
   * is the list of neighbour codes, absent when the country has none.
   */
  datatype Country = Country(
    id: string,
    officialName: string,
    latlng: Option<(real, real)>,
    area: PositiveReal,
    population: nat,
    languages: map<string, string>,
    borders: Option<seq<string>>,
    timezones: seq<string>)

  /** The quantity a metric compares. */
  datatype Attribute =
    | NameLength | Latitude | Longitude | Area | Population
    | Density | Languages | Borders | Timezones

  /** Whether the metric asks for the largest or the smallest value. */
  datatype Direction = Most | Least

  /** A superlative question: an attribute and a direction. */
  datatype Metric = Metric(attribute: Attribute, direction: Direction)

  /** Number of neighbours, counting a missing border list as none. */
  function BorderCount(c: Country): nat {
    if c.borders.Some? then |c.borders.value| else 0
  }

  /**
   * The value a metric compares for country `c`, or None when the
   * country lacks the data. Only the capital coordinates can be missing;
   * a missing border list counts as zero borders.
   */
  function Key(a: Attribute, c: Country): (k: Option<real>)
    ensures k.None? <==> (a == Latitude || a == Longitude) && c.latlng.None?
  {
    match a
    case NameLength => Some(|c.officialName| as real)
    case Latitude => if c.latlng.Some? then Some(c.latlng.value.0) else None
    case Longitude => if c.latlng.Some? then Some(c.latlng.value.1) else None
    case Area => Some(c.area)
    case Population => Some(c.population as real)
    case Density => Some(c.population as real / c.area)
    case Languages => Some(|c.languages| as real)
    case Borders => Some(BorderCount(c) as real)
    case Timezones => Some(|c.timezones| as real)
  }

  /** `x` is strictly better than `y` in direction `d`. */
  predicate Better(d: Direction, x: real, y: real) {
    if d == Most then x > y else x < y
  }

  /** "Which country's capital is farthest west?", the one metric whose reducer differs. */
  const West := Metric(Longitude, Least)

  /** The catalogue, in the order the source lists its questions. */
  const AllMetrics: seq<Metric> := [
    Metric(NameLength, Most), Metric(NameLength, Least),
    Metric(Latitude, Most), Metric(Latitude, Least),
    Metric(Longitude, Most), Metric(Longitude, Least),
    Metric(Area, Most), Metric(Area, Least),
    Metric(Population, Most), Metric(Population, Least),
    Metric(Density, Most), Metric(Density, Least),
    Metric(Languages, Most), Metric(Languages, Least),
    Metric(Borders, Most), Metric(Borders, Least),
    Metric(Timezones, Most), Metric(Timezones, Least)
  ]

  /** The catalogue has eighteen distinct entries. */
  lemma CatalogueDistinct()
    ensures |AllMetrics| == 18
    ensures forall i, j :: 0 <= i < j < |AllMetrics| ==> AllMetrics[i] != AllMetrics[j]
  {
  }

  /** Every attribute-direction pair is in the catalogue. */
  lemma CatalogueComplete(m: Metric)
    ensures m in AllMetrics
  {
    var k := match m.attribute
      case NameLength => 0 case Latitude => 2 case Longitude => 4
      case Area => 6 case Population => 8 case Density => 10
      case Languages => 12 case Borders => 14 case Timezones => 16;
    var i := if m.direction == Most then k else k + 1;
    assert AllMetrics[i] == m;
  }
}
