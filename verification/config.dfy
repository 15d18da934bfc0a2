/** The `config` table: string-valued settings, read back as integers where
    the stored text parses as one. */
module Config {
  import opened Jobs

  /** The Python value `get_config` hands back: an `int` when the stored
      text parses, otherwise the text itself. */
  datatype ConfigValue = Int(n: int) | Text(s: string)

  /** The `config` table, keyed by setting name. */
  type ConfigTable = map<string, string>

  const DefaultMaxRetries: int := 3
  const DefaultBackoffBase: int := 2

  predicate IsDigit(c: char) {
    '0' <= c <= '9'
  }

  predicate AllDigits(s: string) {
    forall i :: 0 <= i < |s| ==> IsDigit(s[i])
  }

  function DigitValue(c: char): nat
    requires IsDigit(c)
  {
    c as int - '0' as int
  }

  function DigitChar(d: nat): char
    requires d < 10
  {
    ('0' as int + d) as char
  }

  /** The value of a string of decimal digits, most significant first. */
  function DigitsValue(s: string): nat
    requires AllDigits(s)
  {
    if |s| == 0 then 0 else DigitsValue(s[..|s| - 1]) * 10 + DigitValue(s[|s| - 1])
  }

  /** Integer parsing: an optional sign followed by at least one decimal digit. */
  function ParseInt(s: string): (r: Option<int>)
    ensures r.Some? ==> |s| > 0
    ensures |s| > 0 && AllDigits(s) ==> r == Some(DigitsValue(s) as int)
    ensures r.Some? ==> |s| > 0 && (IsDigit(s[0]) || s[0] == '-' || s[0] == '+') && AllDigits(s[1..])
    ensures r.Some? ==> IsDigit(s[|s| - 1])
    ensures |s| > 1 && s[0] == '-' && AllDigits(s[1..]) ==> r == Some(-(DigitsValue(s[1..]) as int))
    ensures |s| > 1 && s[0] == '+' && AllDigits(s[1..]) ==> r == Some(DigitsValue(s[1..]) as int)
  {
    if |s| > 0 && (s[0] == '-' || s[0] == '+') then
      var digits := s[1..];
      if |digits| > 0 && AllDigits(digits) then
        Some(if s[0] == '-' then -(DigitsValue(digits) as int) else DigitsValue(digits) as int)
      else
        None
    else if |s| > 0 && AllDigits(s) then
      Some(DigitsValue(s) as int)
    else
      None
  }

  /** Decimal rendering of a natural number, no leading zeros. */
  function ShowNat(n: nat): (s: string)
    ensures |s| > 0
  {
    if n < 10 then [DigitChar(n)] else ShowNat(n / 10) + [DigitChar(n % 10)]
  }

  /** Decimal rendering of an integer, with a leading '-' when negative. */
  function ShowInt(n: int): (s: string)
    ensures |s| > 0
  {
    if n < 0 then "-" + ShowNat(-n) else ShowNat(n)
  }

  lemma {:induction false} ShowNatDigits(n: nat)
    ensures AllDigits(ShowNat(n))
    ensures DigitsValue(ShowNat(n)) == n
  {
    if n >= 10 {
      ShowNatDigits(n / 10);
      var s := ShowNat(n);
      assert s[..|s| - 1] == ShowNat(n / 10);
    }
  }

  /** Parsing the decimal rendering of any integer gives that integer back. */
  lemma ParseShowInt(n: int)
    ensures ParseInt(ShowInt(n)) == Some(n)
  {
    if n < 0 {
      ShowNatDigits(-n);
      assert ShowInt(n)[1..] == ShowNat(-n);
    } else {
      ShowNatDigits(n);
    }
  }

  /** `get_config`: the stored value parsed as an integer when it parses,
      the stored text when it does not, `default` when the key is absent. */
  function GetConfig(table: ConfigTable, key: string, default: ConfigValue): (v: ConfigValue)
    ensures key !in table ==> v == default
    ensures key in table ==> (v.Int? <==> ParseInt(table[key]).Some?)
    ensures key in table && v.Int? ==> ParseInt(table[key]) == Some(v.n)
    ensures key in table && v.Text? ==> v.s == table[key]
  {
    if key in table then
      match ParseInt(table[key])
      case Some(n) => Int(n)
      case None => Text(table[key])
    else
      default
  }

  /** `set_config_value`: insert, or overwrite the value of an existing key. */
  function SetConfigValue(table: ConfigTable, key: string, value: string): (t: ConfigTable)
    ensures t.Keys == table.Keys + {key}
    ensures t[key] == value
    ensures forall k :: k in table && k != key ==> t[k] == table[k]
  {
    table[key := value]
  }

  /** Setting a key to the decimal text of `n` and reading it back gives `n`,
      whatever the table held before and whatever the default is. */
  lemma SetThenGet(table: ConfigTable, key: string, n: int, default: ConfigValue)
    ensures GetConfig(SetConfigValue(table, key, ShowInt(n)), key, default) == Int(n)
  {
    ParseShowInt(n);
  }

  /** Setting one key leaves the reading of every other key as it was. */
  lemma SetKeepsOthers(table: ConfigTable, key: string, value: string, other: string, default: ConfigValue)
    requires other != key
    ensures GetConfig(SetConfigValue(table, key, value), other, default) == GetConfig(table, other, default)
  {
  }

  /** Of two writes to the same key, the second wins. */
  lemma LastWriteWins(table: ConfigTable, key: string, first: string, second: string)
    ensures SetConfigValue(SetConfigValue(table, key, first), key, second) == SetConfigValue(table, key, second)
  {
  }

  /** The two settings a worker reads once when it starts. */
  datatype Settings = Settings(maxRetries: ConfigValue, backoffBase: ConfigValue)

  /** The configuration snapshot taken at the top of the worker loop. */
  function LoadSettings(table: ConfigTable): (s: Settings)
    ensures "max_retries" !in table ==> s.maxRetries == Int(DefaultMaxRetries)
    ensures "backoff_base" !in table ==> s.backoffBase == Int(DefaultBackoffBase)
    ensures "max_retries" in table ==> (s.maxRetries.Int? <==> ParseInt(table["max_retries"]).Some?)
    ensures "backoff_base" in table ==> (s.backoffBase.Int? <==> ParseInt(table["backoff_base"]).Some?)
  {
    Settings(
      GetConfig(table, "max_retries", Int(DefaultMaxRetries)),
      GetConfig(table, "backoff_base", Int(DefaultBackoffBase)))
  }
}
