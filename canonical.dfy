/**
 * The K-ruoka row hash: the fifteen product columns rendered with Python's
 * str(), joined by "||" in a fixed order, and hashed with SHA-256.
 *
 * SHA-256 (hashlib) and Python's str() of a float are not modelled; they are
 * injected as function values, so every property below holds for any choice
 * of them.
 */
module Canonical {
  import opened Wrappers
  import opened Ledger

  /** The foreign functions the hash depends on. */
  datatype Env = Env(sha256: string -> string, floatStr: real -> string)

  /** A Python value held by an extracted product dict. */
  datatype PyValue = PyNone | PyBool(b: bool) | PyStr(s: string) | PyFloat(x: real) | PyInt(n: int)

  /** The number a string of decimal digits spells, most significant first. */
  function DecimalValue(s: string): int
  {
    if s == [] then 0
    else DecimalValue(s[..|s| - 1]) * 10 + (s[|s| - 1] as int - '0' as int)
  }

  /**
   * Decimal digits of a natural number, most significant first: they spell
   * the number back, and there is no leading zero.
   */
  function Digits(n: nat): (s: string)
    ensures |s| >= 1
    ensures forall i :: 0 <= i < |s| ==> '0' <= s[i] <= '9'
    ensures DecimalValue(s) == n
    ensures n > 0 ==> s[0] != '0'
  {
    var d := ['0' + (n % 10) as char];
    assert d[0] as int - '0' as int == n % 10;
    if n < 10 then d
    else
      var front := Digits(n / 10);
      assert (front + d)[..|front + d| - 1] == front;
      front + d
  }

  /** Python's str() of an int. */
  function IntStr(n: int): string
  {
    if n < 0 then "-" + Digits(-n) else Digits(n)
  }

  /** Python's str() of a value; None renders as "None". */
  function Str(v: PyValue, floatStr: real -> string): string
  {
    match v
    case PyNone => "None"
    case PyBool(b) => if b then "True" else "False"
    case PyStr(s) => s
    case PyFloat(x) => floatStr(x)
    case PyInt(n) => IntStr(n)
  }

  function OptStr(o: Option<string>): PyValue
  {
    if o.Some? then PyStr(o.value) else PyNone
  }

  function OptFloat(o: Option<real>): PyValue
  {
    if o.Some? then PyFloat(o.value) else PyNone
  }

  function OptInt(o: Option<int>): PyValue
  {
    if o.Some? then PyInt(o.value) else PyNone
  }

  function ScalarValue(v: Scalar): PyValue
  {
    match v
    case Null => PyNone
    case Bool(b) => PyBool(b)
    case Text(s) => PyStr(s)
  }

  /** The dict an extraction builds for one product: every one of the fifteen keys is set. */
  function AsDict(p: Product): map<string, PyValue>
  {
    map[
      "id" := PyStr(p.id),
      "name_finnish" := OptStr(p.nameFinnish),
      "name_english" := OptStr(p.nameEnglish),
      "available_store" := ScalarValue(p.availableStore),
      "available_web" := ScalarValue(p.availableWeb),
      "net_weight" := OptFloat(p.netWeight),
      "content_unit" := OptStr(p.contentUnit),
      "image_url" := OptStr(p.imageUrl),
      "brand_name" := OptStr(p.brandName),
      "normal_price_unit" := OptStr(p.normalPriceUnit),
      "normal_price" := OptFloat(p.normalPrice),
      "batch_price" := OptFloat(p.batchPrice),
      "batch_discount_pct" := OptFloat(p.batchDiscountPct),
      "batch_discount_type" := OptStr(p.batchDiscountType),
      "batch_days_left" := OptInt(p.batchDaysLeft)
    ]
  }

  /** The hash input's keys in order, each with the default its .get() names. */
  const HashKeys: seq<(string, string)> := [
    ("id", "null"), ("name_finnish", "null"), ("name_english", "null"),
    ("available_store", "false"), ("available_web", "false"), ("net_weight", "0"),
    ("content_unit", "null"), ("image_url", "null"), ("brand_name", "null"),
    ("normal_price_unit", "null"), ("normal_price", "0"), ("batch_price", "0"),
    ("batch_discount_pct", "0"), ("batch_discount_type", "null"), ("batch_days_left", "0")
  ]

  /** dict.get(key, default) */
  function Get(d: map<string, PyValue>, key: string, default: string): PyValue
  {
    if key in d then d[key] else PyStr(default)
  }

  /**
   * The fifteen rendered fields, each str(item.get(key, default)). Since the
   * extracted dict holds every key, no default ever applies.
   */
  function HashFields(p: Product, floatStr: real -> string): (fs: seq<string>)
    ensures |fs| == |HashKeys| == 15
    ensures forall i :: 0 <= i < 15 ==> HashKeys[i].0 in AsDict(p)
    ensures forall i :: 0 <= i < 15 ==> fs[i] == Str(AsDict(p)[HashKeys[i].0], floatStr)
    ensures fs[0] == p.id
  {
    seq(15, i requires 0 <= i < 15 => Str(Get(AsDict(p), HashKeys[i].0, HashKeys[i].1), floatStr))
  }

  /** sep.join(parts) */
  function Join(parts: seq<string>, sep: string): string
  {
    if parts == [] then ""
    else if |parts| == 1 then parts[0]
    else parts[0] + sep + Join(parts[1..], sep)
  }

  /** The string both K-ruoka paths hash: the fifteen fields joined by "||". */
  function HashInput(p: Product, floatStr: real -> string): string
  {
    Join(HashFields(p, floatStr), "||")
  }

  /** tonno_row_hash: the hex SHA-256 of the hash input. */
  function RowHash(p: Product, env: Env): string
  {
    env.sha256(HashInput(p, env.floatStr))
  }
}
