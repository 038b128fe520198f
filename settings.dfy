/**
 * The constraint-set loader: validation of the parsed configuration (read_config
 * without the INI parsing). A configuration is the list of its sections, each a map
 * from option name to option text as ConfigParser yields them.
 */
module Settings {
  import opened Wrappers
  import opened Strings
  import opened Errors

  type Section = map<string, string>

  datatype Config = Config(questionsAmount: int, minimumTitles: int, hard: int, medium: int,
                           easy: int, points: int, debug: bool)

  /** The options type-checked as integers before the quota check. */
  const IntegerKeys: seq<string> := ["questions_amount", "minimum_titles", "hard", "medium", "easy"]

  /** The required options, in the order they are checked and reported. */
  const Required: seq<string> := IntegerKeys + ["points", "debug"]

  /** `a` is `b` with some elements left out, order kept. */
  predicate IsSubseq<T(==)>(a: seq<T>, b: seq<T>)
    decreases |b|
  {
    if a == [] then true
    else if b == [] then false
    else if a[0] == b[0] then IsSubseq(a[1..], b[1..])
    else IsSubseq(a, b[1..])
  }

  /** The keys absent from a section, in key order. */
  function Missing(opts: Section, keys: seq<string>): (m: seq<string>)
    ensures forall k :: k in m <==> k in keys && k !in opts
    ensures IsSubseq(m, keys)
  {
    if keys == [] then []
    else
      var rest := Missing(opts, keys[1..]);
      if keys[0] in opts then
        assert rest != [] ==> rest[0] != keys[0] by {
          if rest != [] { assert rest[0] in rest; }
        }
        rest
      else
        assert ([keys[0]] + rest)[1..] == rest;
        [keys[0]] + rest
  }

  predicate IsInt(opts: Section, key: string) {
    key in opts && ParseInt(opts[key]).Some?
  }

  /** Index of the first key whose value is not an integer literal. */
  function FirstNonInteger(opts: Section, keys: seq<string>): (r: Option<nat>)
    requires forall k :: k in keys ==> k in opts
    ensures r.None? <==> forall j :: 0 <= j < |keys| ==> IsInt(opts, keys[j])
    ensures r.Some? ==> r.value < |keys| && !IsInt(opts, keys[r.value])
                        && forall j :: 0 <= j < r.value ==> IsInt(opts, keys[j])
  {
    if keys == [] then None
    else if !IsInt(opts, keys[0]) then Some(0)
    else match FirstNonInteger(opts, keys[1..])
      case None => None
      case Some(i) => Some(i + 1)
  }

  /** config.getint on an option already known to hold an integer literal. */
  function IntOf(opts: Section, key: string): int
    requires IsInt(opts, key)
  {
    ParseInt(opts[key]).value
  }

  predicate Present(opts: Section) {
    forall k :: k in Required ==> k in opts
  }

  predicate Integers(opts: Section) {
    IsInt(opts, "questions_amount") && IsInt(opts, "minimum_titles")
    && IsInt(opts, "hard") && IsInt(opts, "medium") && IsInt(opts, "easy")
  }

  predicate QuotaAddsUp(opts: Section)
    requires Integers(opts)
  {
    IntOf(opts, "hard") + IntOf(opts, "medium") + IntOf(opts, "easy") == IntOf(opts, "questions_amount")
  }

  /** Everything that a configuration read_config accepts satisfies. */
  predicate Loadable(sections: seq<Section>) {
    |sections| == 1 && Present(sections[0]) && Integers(sections[0]) && QuotaAddsUp(sections[0])
    && IsInt(sections[0], "points") && ParseBool(sections[0]["debug"]).Some?
  }

  /** read_config: exactly one section, then every required option present, then the first
      five options integers, then the quota sum; points and debug are converted last, and a
      failure there reaches the generic handler (code 520). */
  function ReadConfig(sections: seq<Section>): (r: Result<Config, Error>)
    ensures r.Ok? <==> Loadable(sections)
  {
    if |sections| != 1 then Err(MalformedConfig)
    else
      var opts := sections[0];
      var missing := Missing(opts, Required);
      if missing != [] then
        assert missing[0] in missing;
        Err(MissingOptions(missing))
      else
        Convert(opts)
  }

  /** The part of read_config after the presence check: the type check of the first five
      options, the quota sum, then getint and getboolean for the result. */
  function Convert(opts: Section): (r: Result<Config, Error>)
    requires Present(opts)
    ensures r.Ok? <==> Integers(opts) && QuotaAddsUp(opts)
                       && IsInt(opts, "points") && ParseBool(opts["debug"]).Some?
  {
    match FirstNonInteger(opts, IntegerKeys)
    case Some(i) => Err(InvalidType(IntegerKeys[i]))
    case None =>
      assert IsInt(opts, IntegerKeys[0]) && IsInt(opts, IntegerKeys[1]) && IsInt(opts, IntegerKeys[2])
          && IsInt(opts, IntegerKeys[3]) && IsInt(opts, IntegerKeys[4]);
      Assemble(opts)
  }

  /** The dictionary read_config returns, once the first five options are known integers: the
      quota sum is checked, then every option is converted. */
  function Assemble(opts: Section): (r: Result<Config, Error>)
    requires Present(opts) && Integers(opts)
    ensures r.Ok? <==> QuotaAddsUp(opts) && IsInt(opts, "points") && ParseBool(opts["debug"]).Some?
  {
    var n := IntOf(opts, "questions_amount");
    var hard, medium, easy := IntOf(opts, "hard"), IntOf(opts, "medium"), IntOf(opts, "easy");
    if hard + medium + easy != n then Err(InconsistentQuota)
    else if !IsInt(opts, "points") then Err(Unexpected(InvalidLiteral(opts["points"])))
    else if ParseBool(opts["debug"]).None? then Err(Unexpected(NotABoolean(opts["debug"])))
    else Ok(Config(n, IntOf(opts, "minimum_titles"), hard, medium, easy,
                   IntOf(opts, "points"), ParseBool(opts["debug"]).value))
  }

  /** An accepted configuration carries the values of its options, converted as getint and
      getboolean convert them, and its quotas add up to questions_amount. */
  lemma ReadConfigValues(sections: seq<Section>)
    requires ReadConfig(sections).Ok?
    ensures var c := ReadConfig(sections).value; var opts := sections[0];
      && c.hard + c.medium + c.easy == c.questionsAmount
      && c.questionsAmount == IntOf(opts, "questions_amount")
      && c.minimumTitles == IntOf(opts, "minimum_titles")
      && c.hard == IntOf(opts, "hard") && c.medium == IntOf(opts, "medium")
      && c.easy == IntOf(opts, "easy") && c.points == IntOf(opts, "points")
      && Some(c.debug) == ParseBool(opts["debug"])
  {
  }

  /** Which failure read_config reports, in the order it checks, and what each one carries. */
  lemma ReadConfigErrors(sections: seq<Section>)
    ensures var r := ReadConfig(sections);
      && (r == Err(MalformedConfig) <==> |sections| != 1)
      && (r.Err? && r.error.MissingOptions? <==> |sections| == 1 && !Present(sections[0]))
      && (r.Err? && r.error.InvalidType? <==>
            |sections| == 1 && Present(sections[0]) && !Integers(sections[0]))
      && (r == Err(InconsistentQuota) <==>
            |sections| == 1 && Present(sections[0]) && Integers(sections[0]) && !QuotaAddsUp(sections[0]))
      && (r.Err? && r.error.Unexpected? <==>
            |sections| == 1 && Present(sections[0]) && Integers(sections[0]) && QuotaAddsUp(sections[0])
            && (!IsInt(sections[0], "points") || ParseBool(sections[0]["debug"]).None?))
      && (r.Err? ==> r.error.Code() == 400 || r.error.Unexpected?)
  {
    if |sections| == 1 {
      var opts := sections[0];
      var missing := Missing(opts, Required);
      if missing != [] {
        assert missing[0] in missing;
      } else if FirstNonInteger(opts, IntegerKeys).None? {
        assert IsInt(opts, IntegerKeys[0]) && IsInt(opts, IntegerKeys[1]) && IsInt(opts, IntegerKeys[2])
            && IsInt(opts, IntegerKeys[3]) && IsInt(opts, IntegerKeys[4]);
      } else {
        var i := FirstNonInteger(opts, IntegerKeys).value;
        assert !IsInt(opts, IntegerKeys[i]);
      }
    }
  }

  /** A reported list of missing options names each absent required option once, in the
      order of the required list, and nothing else. */
  lemma MissingReported(sections: seq<Section>)
    requires ReadConfig(sections).Err? && ReadConfig(sections).error.MissingOptions?
    ensures var names := ReadConfig(sections).error.names;
      && names != [] && IsSubseq(names, Required)
      && forall k :: k in names <==> k in Required && k !in sections[0]
  {
    ReadConfigErrors(sections);
  }

  /** A reported type error names the first non-integer option among the five checked. */
  lemma InvalidTypeReported(sections: seq<Section>)
    requires ReadConfig(sections).Err? && ReadConfig(sections).error.InvalidType?
    ensures exists i :: 0 <= i < |IntegerKeys| && IntegerKeys[i] == ReadConfig(sections).error.option
              && !IsInt(sections[0], IntegerKeys[i])
              && forall j :: 0 <= j < i ==> IsInt(sections[0], IntegerKeys[j])
  {
    ReadConfigErrors(sections);
    var opts := sections[0];
    var i := FirstNonInteger(opts, IntegerKeys).value;
    assert IntegerKeys[i] == ReadConfig(sections).error.option;
  }
}
