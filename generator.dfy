/** The generation loop of `generate_phone_numbers`. The random source is the
    finite stream of digits that successive `rng.choice('0123456789')` calls
    return; each candidate takes the next `remaining` of them as its body. */
module Generator {
  import opened Digits
  import opened Validation

  datatype Option<T> = None | Some(value: T)

  /** What a call gives back. `DrawsExhausted` means the stream ran out before
      `limit` numbers were appended; the source, whose random source never runs
      out, would still be drawing. */
  datatype Generation =
    | Generated(numbers: seq<string>)
    | Rejected(error: Error)
    | DrawsExhausted

  /** The unprefixed candidate: the country digits, then the local digits,
      then the random body. */
  function Full(cfg: Config, body: string): (r: string)
    ensures |r| == |cfg.countryDigits| + |cfg.localDigits| + |body|
    ensures r[..|cfg.countryDigits| + |cfg.localDigits|] == cfg.countryDigits + cfg.localDigits
    ensures r[|cfg.countryDigits| + |cfg.localDigits|..] == body
  {
    cfg.countryDigits + cfg.localDigits + body
  }

  /** The number as appended to the results: with a leading '+' or without. */
  function Format(cfg: Config, full: string): (r: string)
    ensures Unformat(cfg, r) == full
    ensures |r| == (if cfg.includePlus then 1 else 0) + |full|
    ensures cfg.includePlus ==> r[0] == '+'
  {
    if cfg.includePlus then "+" + full else full
  }

  /** The number without the '+' that `Format` may have put in front. */
  function Unformat(cfg: Config, s: string): string {
    if cfg.includePlus && s != [] then s[1..] else s
  }

  /** Where the random body starts in a formatted number. */
  function BodyStart(cfg: Config): nat {
    (if cfg.includePlus then 1 else 0) + |cfg.countryDigits| + |cfg.localDigits|
  }

  /** `s` is an optional '+', the country and local digits and a body of
      `remaining` random digits. */
  ghost predicate IsNumberOf(cfg: Config, s: string) {
    && |s| == BodyStart(cfg) + cfg.remaining
    && AllDigits(s[BodyStart(cfg)..])
    && s == Format(cfg, Full(cfg, s[BodyStart(cfg)..]))
  }

  ghost predicate AllNumbersOf(cfg: Config, ns: seq<string>) {
    forall i :: 0 <= i < |ns| ==> IsNumberOf(cfg, ns[i])
  }

  ghost predicate Distinct(ns: seq<string>) {
    forall i, j :: 0 <= i < j < |ns| ==> ns[i] != ns[j]
  }

  /** The unprefixed numbers appended so far. */
  ghost function Appended(cfg: Config, results: seq<string>): set<string> {
    set i | 0 <= i < |results| :: Unformat(cfg, results[i])
  }

  /** The state the loop keeps: every result is well formed; with `unique`,
      `seen` is exactly the set of unprefixed results, one per result, and the
      results are pairwise distinct; without it `seen` stays empty. */
  ghost predicate Progress(cfg: Config, results: seq<string>, seen: set<string>) {
    && AllNumbersOf(cfg, results)
    && (cfg.unique ==> seen == Appended(cfg, results) && |seen| == |results| && Distinct(results))
    && (!cfg.unique ==> seen == {})
  }

  /** `max(limit, 0)`: how many numbers a successful call returns. */
  function Wanted(limit: int): nat {
    if limit < 0 then 0 else limit
  }

  /** One pass of the loop body on the candidate `body`: a collision under
      `unique` is discarded, anything else is appended (and recorded). */
  function Step(cfg: Config, results: seq<string>, seen: set<string>, body: string): (r: (seq<string>, set<string>))
    ensures |results| <= |r.0| <= |results| + 1 && r.0[..|results|] == results
    ensures !cfg.unique ==> r.1 == seen
  {
    var full := Full(cfg, body);
    if cfg.unique && full in seen then (results, seen)
    else (results + [Format(cfg, full)], if cfg.unique then seen + {full} else seen)
  }

  /** The loop from the state (`results`, `seen`) on the remaining `draws`. */
  function Run(cfg: Config, draws: seq<Digit>, results: seq<string>, seen: set<string>): (r: Option<seq<string>>)
    requires cfg.remaining > 0
    ensures r.Some? ==> |r.value| >= cfg.limit && |results| <= |r.value| && r.value[..|results|] == results
    decreases |draws|
  {
    if |results| >= cfg.limit then Some(results)
    else if |draws| < cfg.remaining then None
    else
      var next := Step(cfg, results, seen, draws[..cfg.remaining]);
      Run(cfg, draws[cfg.remaining..], next.0, next.1)
  }

  /** `generate_phone_numbers` on the digit stream `draws`: validation first,
      then the loop from no results and an empty `seen`. */
  function Generate(totalLength: int, countryCode: string, localCode: string, limit: int,
                    includePlus: bool, unique: bool, draws: seq<Digit>): (r: Generation)
    ensures var v := Validate(totalLength, countryCode, localCode, limit, includePlus, unique);
            && (r.Rejected? <==> v.Err?)
            && (r.Rejected? ==> r.error == v.error)
  {
    match Validate(totalLength, countryCode, localCode, limit, includePlus, unique)
    case Err(e) => Rejected(e)
    case Ok(cfg) =>
      match Run(cfg, draws, [], {})
      case Some(ns) => Generated(ns)
      case None => DrawsExhausted
  }

  /** A formatted candidate is a well-formed number whose unprefixed form is the candidate. */
  lemma FormatIsNumber(cfg: Config, body: string)
    requires |body| == cfg.remaining && AllDigits(body)
    ensures IsNumberOf(cfg, Format(cfg, Full(cfg, body)))
    ensures Unformat(cfg, Format(cfg, Full(cfg, body))) == Full(cfg, body)
  {
    var s := Format(cfg, Full(cfg, body));
    assert s[BodyStart(cfg)..] == body;
  }

  lemma AppendNumber(cfg: Config, results: seq<string>, s: string)
    requires AllNumbersOf(cfg, results) && IsNumberOf(cfg, s)
    ensures AllNumbersOf(cfg, results + [s])
  {
    var results' := results + [s];
    forall i | 0 <= i < |results'| ensures IsNumberOf(cfg, results'[i]) {
      if i < |results| {
        assert results'[i] == results[i];
      }
    }
  }

  lemma AppendedGrows(cfg: Config, results: seq<string>, s: string)
    ensures Appended(cfg, results + [s]) == Appended(cfg, results) + {Unformat(cfg, s)}
  {
    var results' := results + [s];
    forall x | x in Appended(cfg, results')
      ensures x in Appended(cfg, results) + {Unformat(cfg, s)}
    {
      var i :| 0 <= i < |results'| && x == Unformat(cfg, results'[i]);
      if i < |results| {
        assert results'[i] == results[i];
      }
    }
    forall x | x in Appended(cfg, results) + {Unformat(cfg, s)}
      ensures x in Appended(cfg, results')
    {
      if x in Appended(cfg, results) {
        var i :| 0 <= i < |results| && x == Unformat(cfg, results[i]);
        assert results'[i] == results[i];
      } else {
        assert results'[|results|] == s;
      }
    }
  }

  /** A number whose unprefixed form has not been seen differs from every result. */
  lemma FreshIsDistinct(cfg: Config, results: seq<string>, s: string)
    requires Distinct(results) && Unformat(cfg, s) !in Appended(cfg, results)
    ensures Distinct(results + [s])
  {
    var results' := results + [s];
    forall i | 0 <= i < |results|
      ensures results[i] != s
    {
      assert Unformat(cfg, results[i]) in Appended(cfg, results);
    }
    forall i, j | 0 <= i < j < |results'|
      ensures results'[i] != results'[j]
    {
      if j < |results| {
        assert results'[i] == results[i] && results'[j] == results[j];
      } else {
        assert results'[i] == results[i] && results'[j] == s;
      }
    }
  }

  /** A loop pass keeps `Progress` and never appends more than one number. */
  lemma StepKeepsProgress(cfg: Config, results: seq<string>, seen: set<string>, body: string)
    requires Progress(cfg, results, seen)
    requires |body| == cfg.remaining && AllDigits(body)
    ensures var next := Step(cfg, results, seen, body);
            Progress(cfg, next.0, next.1)
            && (|next.0| == |results| || |next.0| == |results| + 1)
            && (!cfg.unique ==> |next.0| == |results| + 1)
  {
    var full := Full(cfg, body);
    var s := Format(cfg, full);
    if !(cfg.unique && full in seen) {
      FormatIsNumber(cfg, body);
      AppendNumber(cfg, results, s);
      if cfg.unique {
        AppendedGrows(cfg, results, s);
        FreshIsDistinct(cfg, results, s);
      }
    }
  }

  /** Partial correctness of the loop: whenever it finishes, it has appended
      exactly `max(limit, 0)` well-formed numbers, pairwise distinct under
      `unique`. */
  lemma {:induction false} RunSound(cfg: Config, draws: seq<Digit>, results: seq<string>, seen: set<string>)
    requires cfg.remaining > 0
    requires Progress(cfg, results, seen) && |results| <= Wanted(cfg.limit)
    ensures var r := Run(cfg, draws, results, seen);
            r.Some? ==> |r.value| == Wanted(cfg.limit) && AllNumbersOf(cfg, r.value)
                        && (cfg.unique ==> Distinct(r.value))
    decreases |draws|
  {
    if |results| < cfg.limit && |draws| >= cfg.remaining {
      var body := draws[..cfg.remaining];
      StepKeepsProgress(cfg, results, seen, body);
      var next := Step(cfg, results, seen, body);
      RunSound(cfg, draws[cfg.remaining..], next.0, next.1);
    }
  }

  /** A `limit` of zero or less asks for nothing: an accepted request returns
      the empty list without reading a single digit. */
  lemma NothingRequested(totalLength: int, countryCode: string, localCode: string, limit: int,
                         includePlus: bool, unique: bool, draws: seq<Digit>)
    requires limit <= 0
    requires Validate(totalLength, countryCode, localCode, limit, includePlus, unique).Ok?
    ensures Generate(totalLength, countryCode, localCode, limit, includePlus, unique, draws) == Generated([])
  {
  }

  /** The capacity check is necessary: with `unique`, on no digit stream at all
      can the loop append more numbers than there are bodies of `remaining`
      digits. */
  lemma {:induction false} UniqueRunNeedsCapacity(cfg: Config, draws: seq<Digit>, results: seq<string>, seen: set<string>)
    requires cfg.remaining > 0 && cfg.unique
    requires Progress(cfg, results, seen)
    ensures Run(cfg, draws, results, seen).Some? ==> cfg.limit <= Pow10(cfg.remaining)
    decreases |draws|
  {
    if |results| >= cfg.limit {
      var pre := cfg.countryDigits + cfg.localDigits;
      assert PrefixedBodies(seen, pre, cfg.remaining) by {
        forall x | x in seen
          ensures |x| == |pre| + cfg.remaining && x[..|pre|] == pre && AllDigits(x[|pre|..])
        {
          var i :| 0 <= i < |results| && x == Unformat(cfg, results[i]);
          assert IsNumberOf(cfg, results[i]);
          var body := results[i][BodyStart(cfg)..];
          assert x == Full(cfg, body);
          assert x[|pre|..] == body;
        }
      }
      PrefixedBodiesBound(seen, pre, cfg.remaining);
    } else if |draws| >= cfg.remaining {
      var body := draws[..cfg.remaining];
      StepKeepsProgress(cfg, results, seen, body);
      var next := Step(cfg, results, seen, body);
      UniqueRunNeedsCapacity(cfg, draws[cfg.remaining..], next.0, next.1);
    }
  }

  /** The bodies `Encode(c - 1, n), ..., Encode(0, n)`, in that order. */
  function DistinctBodies(n: nat, c: nat): (b: seq<seq<Digit>>)
    ensures |b| == c
    ensures forall k :: 0 <= k < c ==> b[k] == Encode(c - 1 - k, n)
  {
    if c == 0 then [] else [Encode(c - 1, n)] + DistinctBodies(n, c - 1)
  }

  /** The bodies of a stream laid end to end. */
  function Concat(bodies: seq<seq<Digit>>): seq<Digit>
  {
    if |bodies| == 0 then [] else bodies[0] + Concat(bodies[1..])
  }

  /** The digit stream `Encode(c - 1, n) + ... + Encode(0, n)`. */
  function DistinctDraws(n: nat, c: nat): seq<Digit>
  {
    if c == 0 then [] else Encode(c - 1, n) + DistinctDraws(n, c - 1)
  }

  /** The stream is `DistinctBodies(n, c)` laid end to end. */
  lemma {:induction false} DistinctDrawsBodies(n: nat, c: nat)
    ensures DistinctDraws(n, c) == Concat(DistinctBodies(n, c))
  {
    if c > 0 {
      var bodies := DistinctBodies(n, c);
      assert bodies[1..] == DistinctBodies(n, c - 1);
      DistinctDrawsBodies(n, c - 1);
    }
  }

  /** When there are no more than `10^n` of them, the bodies of
      `DistinctDraws(n, c)` all have `n` digits and are pairwise distinct. */
  lemma DistinctBodiesDistinct(n: nat, c: nat, j: nat, k: nat)
    requires c <= Pow10(n) && j < k < c
    ensures |DistinctBodies(n, c)[j]| == n
    ensures DistinctBodies(n, c)[j] != DistinctBodies(n, c)[k]
  {
    var bodies := DistinctBodies(n, c);
    assert bodies[j] == Encode(c - 1 - j, n);
    assert bodies[k] == Encode(c - 1 - k, n);
    EncodeInjective(c - 1 - j, c - 1 - k, n);
  }

  /** On `DistinctDraws` no candidate ever collides, so the loop finishes as
      soon as the stream supplies at least `limit - |results|` bodies. */
  lemma {:induction false} RunOnDistinctDraws(cfg: Config, c: nat, results: seq<string>, seen: set<string>)
    requires cfg.remaining > 0
    requires cfg.limit <= |results| + c
    requires cfg.unique ==> c <= Pow10(cfg.remaining)
    requires forall j :: 0 <= j < c ==> Full(cfg, Encode(j, cfg.remaining)) !in seen
    ensures Run(cfg, DistinctDraws(cfg.remaining, c), results, seen).Some?
    decreases c
  {
    var n := cfg.remaining;
    if |results| < cfg.limit {
      var draws := DistinctDraws(n, c);
      assert draws[..n] == Encode(c - 1, n);
      assert draws[n..] == DistinctDraws(n, c - 1);
      var full := Full(cfg, Encode(c - 1, n));
      var next := Step(cfg, results, seen, Encode(c - 1, n));
      assert next.0 == results + [Format(cfg, full)];
      forall j | 0 <= j < c - 1
        ensures Full(cfg, Encode(j, n)) !in next.1
      {
        if cfg.unique {
          EncodeInjective(j, c - 1, n);
          assert Full(cfg, Encode(j, n))[|cfg.countryDigits + cfg.localDigits|..] == Encode(j, n);
        }
      }
      RunOnDistinctDraws(cfg, c - 1, next.0, next.1);
    }
  }

  /** The capacity check is sufficient: every request that passes validation
      has a digit stream on which the loop finishes. */
  lemma AcceptedRequestCanFinish(totalLength: int, countryCode: string, localCode: string, limit: int,
                                 includePlus: bool, unique: bool)
    requires Validate(totalLength, countryCode, localCode, limit, includePlus, unique).Ok?
    ensures var cfg := Validate(totalLength, countryCode, localCode, limit, includePlus, unique).value;
            Generate(totalLength, countryCode, localCode, limit, includePlus, unique,
                     DistinctDraws(cfg.remaining, Wanted(limit))).Generated?
  {
    var cfg := Validate(totalLength, countryCode, localCode, limit, includePlus, unique).value;
    RunOnDistinctDraws(cfg, Wanted(limit), [], {});
  }

  /** A request refused only for capacity could never be served: with the
      capacity check skipped, the loop finishes on no digit stream. */
  lemma CapacityRefusalIsExact(totalLength: int, countryCode: string, localCode: string, limit: int,
                               includePlus: bool, draws: seq<Digit>)
    requires Validate(totalLength, countryCode, localCode, limit, includePlus, true).Err?
    requires Validate(totalLength, countryCode, localCode, limit, includePlus, true).error.CapacityExceeded?
    ensures Validate(totalLength, countryCode, localCode, limit, includePlus, false).Ok?
    ensures var cfg := Validate(totalLength, countryCode, localCode, limit, includePlus, false).value;
            Run(cfg.(unique := true), draws, [], {}) == None
  {
    var cfg := Validate(totalLength, countryCode, localCode, limit, includePlus, false).value;
    assert Appended(cfg.(unique := true), []) == {};
    UniqueRunNeedsCapacity(cfg.(unique := true), draws, [], {});
  }

  /** What every finished call returns, digit for digit: the total length of
      its digits, the codes it starts with, and the '+' it carries. */
  lemma NumberShape(cfg: Config, s: string)
    requires ValidConfig(cfg) && IsNumberOf(cfg, s)
    ensures |Unformat(cfg, s)| == cfg.totalLength && AllDigits(Unformat(cfg, s))
    ensures Unformat(cfg, s)[..|cfg.countryDigits| + |cfg.localDigits|] == cfg.countryDigits + cfg.localDigits
    ensures (s[0] == '+') == cfg.includePlus
    ensures forall i :: 0 < i < |s| ==> s[i] != '+'
  {
    var body := s[BodyStart(cfg)..];
    var full := Full(cfg, body);
    assert Unformat(cfg, s) == full;
    assert AllDigits(full) by {
      forall i | 0 <= i < |full| ensures IsAsciiDigit(full[i]) {
        if i < |cfg.countryDigits| {
          assert full[i] == cfg.countryDigits[i];
        } else if i < |cfg.countryDigits| + |cfg.localDigits| {
          assert full[i] == cfg.localDigits[i - |cfg.countryDigits|];
        } else {
          assert full[i] == body[i - |cfg.countryDigits| - |cfg.localDigits|];
        }
      }
    }
    assert full[0] == cfg.countryDigits[0];
    forall i | 0 < i < |s| ensures s[i] != '+' {
      if cfg.includePlus {
        assert s[i] == full[i - 1];
      } else {
        assert s[i] == full[i];
      }
    }
  }

  /** One more pass of the loop reads the next `remaining` digits of the stream. */
  lemma RunUnfolds(cfg: Config, draws: seq<Digit>, pos: nat, results: seq<string>, seen: set<string>)
    requires cfg.remaining > 0
    requires |results| < cfg.limit && pos + cfg.remaining <= |draws|
    ensures var next := Step(cfg, results, seen, draws[pos..pos + cfg.remaining]);
            Run(cfg, draws[pos..], results, seen) == Run(cfg, draws[pos + cfg.remaining..], next.0, next.1)
  {
    assert draws[pos..][..cfg.remaining] == draws[pos..pos + cfg.remaining];
    assert draws[pos..][cfg.remaining..] == draws[pos + cfg.remaining..];
  }

  /** The loop of `generate_phone_numbers` on a validated configuration, with
      `draws` standing for the digits the random source returns. */
  method GenerationLoop(cfg: Config, draws: seq<Digit>) returns (r: Option<seq<string>>)
    requires cfg.remaining > 0
    ensures r == Run(cfg, draws, [], {})
    ensures r.Some? ==>
      && |r.value| == Wanted(cfg.limit)
      && AllNumbersOf(cfg, r.value)
      && (cfg.unique ==> Distinct(r.value))
  {
    var results: seq<string> := [];
    var seen: set<string> := {};
    var pos := 0;
    assert Appended(cfg, results) == {};
    while |results| < cfg.limit
      invariant pos <= |draws|
      invariant Progress(cfg, results, seen)
      invariant |results| <= Wanted(cfg.limit)
      invariant Run(cfg, draws[pos..], results, seen) == Run(cfg, draws, [], {})
      decreases |draws| - pos
    {
      if |draws| - pos < cfg.remaining {
        return None;
      }
      var body := draws[pos..pos + cfg.remaining];
      ghost var next := Step(cfg, results, seen, body);
      RunUnfolds(cfg, draws, pos, results, seen);
      StepKeepsProgress(cfg, results, seen, body);
      pos := pos + cfg.remaining;
      var fullNumber := cfg.countryDigits + cfg.localDigits + body;
      if cfg.unique {
        if fullNumber in seen {
          continue;
        }
        seen := seen + {fullNumber};
      }
      if cfg.includePlus {
        results := results + ["+" + fullNumber];
      } else {
        results := results + [fullNumber];
      }
      assert results == next.0 && seen == next.1;
    }
    return Some(results);
  }

  /** `generate_phone_numbers`: the checks, then the loop. */
  method GeneratePhoneNumbers(totalLength: int, countryCode: string, localCode: string, limit: int,
                              includePlus: bool, unique: bool, draws: seq<Digit>)
    returns (r: Generation)
    ensures r == Generate(totalLength, countryCode, localCode, limit, includePlus, unique, draws)
    ensures r.Rejected? <==> Validate(totalLength, countryCode, localCode, limit, includePlus, unique).Err?
    ensures r.Generated? ==>
      var cfg := Validate(totalLength, countryCode, localCode, limit, includePlus, unique).value;
      && |r.numbers| == Wanted(limit)
      && AllNumbersOf(cfg, r.numbers)
      && (unique ==> Distinct(r.numbers))
  {
    var v := Validate(totalLength, countryCode, localCode, limit, includePlus, unique);
    if v.Err? {
      return Rejected(v.error);
    }
    var numbers := GenerationLoop(v.value, draws);
    if numbers.Some? {
      r := Generated(numbers.value);
    } else {
      r := DrawsExhausted;
    }
  }
}
