/** TTL configuration and the TTL of a request. */
module Settings {
  import opened Common
  import opened Ttl

  datatype Config = Config(defaultTTL: int, minTTL: int, maxTTL: int)

  const HOUR := 3_600_000_000_000

  /** An environment value: the fallback if blank, a parsed TTL otherwise. */
  function EnvTTL(frac: Rounding, value: string, fallback: int): Option<int> {
    if TrimSpace(value) == "" then Some(fallback)
    else
      match ParseTTL(frac, value)
      case Ok(d) => Some(d)
      case _ => None
  }

  predicate ConfigOk(cfg: Config) {
    0 < cfg.minTTL <= cfg.defaultTTL <= cfg.maxTTL <= MAX_INT64
  }

  /** The TTL a request gets: the default when the header is absent. */
  function RequestTTL(frac: Rounding, cfg: Config, header: string): Option<int> {
    var ttl := if header == "" then Ok(cfg.defaultTTL) else ParseTTL(frac, header);
    match ttl
    case Ok(d) => if d < cfg.minTTL || d > cfg.maxTTL then None else Some(d)
    case _ => None
  }

  lemma EnvTTLRange(frac: Rounding, value: string, fallback: int)
    requires 0 < fallback <= MAX_INT64
    ensures EnvTTL(frac, value, fallback).Some? ==> 0 < EnvTTL(frac, value, fallback).value <= MAX_INT64
  {
    if ParseTTL(frac, value).Ok? {
      ParseTTLRange(frac, value);
    }
  }

  /** The checks on three values already read. */
  function CheckTTLs(d: Option<int>, lo: Option<int>, hi: Option<int>): Option<Config> {
    if d.None? || lo.None? || hi.None? then None
    else if lo.value > hi.value then None
    else if d.value < lo.value || d.value > hi.value then None
    else Some(Config(d.value, lo.value, hi.value))
  }

  function LoadTTLs(frac: Rounding, defaultV: string, minV: string, maxV: string): Option<Config> {
    CheckTTLs(EnvTTL(frac, defaultV, 7 * 24 * HOUR), EnvTTL(frac, minV, HOUR / 6), EnvTTL(frac, maxV, 365 * 24 * HOUR))
  }

  /** A configuration that boots gives the sweeper a positive period; it never turns away a
      request without the header; and it admits no TTL outside its range. */
  lemma TTLsInRange(frac: Rounding, defaultV: string, minV: string, maxV: string, header: string)
    requires LoadTTLs(frac, defaultV, minV, maxV).Some?
    ensures var cfg := LoadTTLs(frac, defaultV, minV, maxV).value;
            && ConfigOk(cfg)
            && RequestTTL(frac, cfg, "") == Some(cfg.defaultTTL)
            && (RequestTTL(frac, cfg, header).Some? ==> cfg.minTTL <= RequestTTL(frac, cfg, header).value <= cfg.maxTTL)
  {
    EnvTTLRange(frac, defaultV, 7 * 24 * HOUR);
    EnvTTLRange(frac, minV, HOUR / 6);
    EnvTTLRange(frac, maxV, 365 * 24 * HOUR);
  }

  /** The configuration from the environment, in nanoseconds: seven days, ten minutes and 365
      days where a variable is blank, its parsed value where it is not; none if one does not
      parse or the three are out of order. */
  lemma LoadsTTLs(frac: Rounding, defaultV: string, minV: string, maxV: string)
    ensures LoadTTLs(frac, "", "", "") == Some(Config(604_800_000_000_000, 600_000_000_000, 31_536_000_000_000_000))
    ensures LoadTTLs(frac, defaultV, minV, maxV).Some? <==>
            var d := if TrimSpace(defaultV) == "" then Ok(604_800_000_000_000) else ParseTTL(frac, defaultV);
            var lo := if TrimSpace(minV) == "" then Ok(600_000_000_000) else ParseTTL(frac, minV);
            var hi := if TrimSpace(maxV) == "" then Ok(31_536_000_000_000_000) else ParseTTL(frac, maxV);
            d.Ok? && lo.Ok? && hi.Ok? && lo.ns <= d.ns <= hi.ns
    ensures LoadTTLs(frac, defaultV, minV, maxV).Some? ==>
            var cfg := LoadTTLs(frac, defaultV, minV, maxV).value;
            && (TrimSpace(defaultV) == "" ==> cfg.defaultTTL == 604_800_000_000_000)
            && (TrimSpace(minV) == "" ==> cfg.minTTL == 600_000_000_000)
            && (TrimSpace(maxV) == "" ==> cfg.maxTTL == 31_536_000_000_000_000)
            && (TrimSpace(defaultV) != "" ==> ParseTTL(frac, defaultV) == Ok(cfg.defaultTTL))
            && (TrimSpace(minV) != "" ==> ParseTTL(frac, minV) == Ok(cfg.minTTL))
            && (TrimSpace(maxV) != "" ==> ParseTTL(frac, maxV) == Ok(cfg.maxTTL))
  {
    hide ParseTTL;
  }

  /** The header is honoured: what it parses to is what the request gets, if that is in the
      range, and a request whose header does not parse is refused. */
  lemma HeaderHonoured(frac: Rounding, cfg: Config, header: string)
    requires header != ""
    ensures forall d: int ::
              RequestTTL(frac, cfg, header) == Some(d)
              <==> ParseTTL(frac, header) == Ok(d) && cfg.minTTL <= d <= cfg.maxTTL
  {
    hide ParseTTL;
  }

  /** In the caller's terms: a printed list of components is granted as its exact sum, or the
      request is refused because that sum is out of range. */
  lemma PrintedHeader(frac: Rounding, cfg: Config, cs: seq<Component>)
    requires ConfigOk(cfg) && cs != [] && Units(cs, "wdhms") && forall c | c in cs :: NoWrap(c)
    ensures RequestTTL(frac, cfg, Print(cs)) == if cfg.minTTL <= Sum(cs) <= cfg.maxTTL then Some(Sum(cs)) else None
  {
    hide ParseTTL, Print, Sum, Hours;
    HoursSum(cs);
    ParseTTLExact(frac, cs);
    PrintShape(cs);
  }

  /** The same for a value from the environment. */
  lemma PrintedValue(frac: Rounding, fallback: int, cs: seq<Component>)
    requires cs != [] && Units(cs, "wdhms") && forall c | c in cs :: NoWrap(c)
    ensures EnvTTL(frac, Print(cs), fallback) == if 0 < Sum(cs) <= MAX_INT64 then Some(Sum(cs)) else None
    ensures EnvTTL(frac, "", fallback) == Some(fallback)
  {
    hide ParseTTL, Print, Sum, Hours;
    HoursSum(cs);
    ParseTTLExact(frac, cs);
    PrintShape(cs);
    PlainUnsigned(Print(cs));
  }
}
