// src/net/classicube/api/enums/WeatherType.java: the weather a client is told
// to show.

module NetWeatherType {
  import opened Wrappers
  import opened JavaNum

  datatype WeatherType = SUNNY | RAINING | SNOWING

  /** `getId`. */
  function Id(t: WeatherType): JByte
  {
    match t
    case SUNNY => 0
    case RAINING => 1
    case SNOWING => 2
  }

  /** `getById`: the loop over `values()` unrolled; null when no type has the id. */
  function GetById(id: JByte): (r: Option<WeatherType>)
    ensures r.Some? ==> Id(r.value) == id
  {
    if Id(SUNNY) == id then Some(SUNNY)
    else if Id(RAINING) == id then Some(RAINING)
    else if Id(SNOWING) == id then Some(SNOWING)
    else None
  }

  /** Exactly 0, 1 and 2 name a weather type, each type comes back from its id,
      and the ids are distinct. */
  lemma GetByIdExact(id: JByte, t: WeatherType, u: WeatherType)
    ensures GetById(id).Some? <==> 0 <= id <= 2
    ensures GetById(Id(t)) == Some(t)
    ensures Id(t) == Id(u) ==> t == u
  {
  }
}
