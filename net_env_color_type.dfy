// src/net/classicube/api/enums/EnvColorType.java: which environment colour an
// EnvColors packet sets.

module NetEnvColorType {
  import opened Wrappers
  import opened JavaNum

  datatype EnvColorType =
    | SKY_COLOR | CLOUD_COLOR | FOG_COLOR
    | AMBIENT_LIGHT_COLOR | DIFFUSE_LIGHT_COLOR | SKYBOX_COLOR

  /** `getValue`. */
  function Value(t: EnvColorType): JByte
  {
    match t
    case SKY_COLOR => 0
    case CLOUD_COLOR => 1
    case FOG_COLOR => 2
    case AMBIENT_LIGHT_COLOR => 3
    case DIFFUSE_LIGHT_COLOR => 4
    case SKYBOX_COLOR => 5
  }

  /** `fromValue`: the loop over `values()` unrolled; null when no type has the value. */
  function FromValue(v: JByte): (r: Option<EnvColorType>)
    ensures r.Some? ==> Value(r.value) == v
  {
    if Value(SKY_COLOR) == v then Some(SKY_COLOR)
    else if Value(CLOUD_COLOR) == v then Some(CLOUD_COLOR)
    else if Value(FOG_COLOR) == v then Some(FOG_COLOR)
    else if Value(AMBIENT_LIGHT_COLOR) == v then Some(AMBIENT_LIGHT_COLOR)
    else if Value(DIFFUSE_LIGHT_COLOR) == v then Some(DIFFUSE_LIGHT_COLOR)
    else if Value(SKYBOX_COLOR) == v then Some(SKYBOX_COLOR)
    else None
  }

  /** Exactly 0..5 name a colour type, each type comes back from its value, and
      the values are distinct. */
  lemma FromValueExact(v: JByte, t: EnvColorType, u: EnvColorType)
    ensures FromValue(v).Some? <==> 0 <= v <= 5
    ensures FromValue(Value(t)) == Some(t)
    ensures Value(t) == Value(u) ==> t == u
  {
  }
}
