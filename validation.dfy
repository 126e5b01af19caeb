/** The checks `generate_phone_numbers` makes before it draws any digit: the
    total length, the country and local codes after Python's `str.strip()`,
    `str.lstrip('+')` and `str.isdigit()` (restricted to ASCII digits), the
    random-digit budget and, when uniqueness is asked for, the capacity of
    that budget. */
module Validation {
  import opened Digits

  /** The characters Python's `str.strip()` removes when called without an
      argument (those for which `str.isspace()` holds). */
  predicate IsSpace(c: char) {
    c == ' ' || ('\t' <= c <= '\r') || ('\U{1C}' <= c <= '\U{1F}')
    || c == '\U{85}' || c == '\U{A0}' || c == '\U{1680}'
    || ('\U{2000}' <= c <= '\U{200A}') || c == '\U{2028}' || c == '\U{2029}'
    || c == '\U{202F}' || c == '\U{205F}' || c == '\U{3000}'
  }

  predicate AllSpace(s: string) {
    forall i :: 0 <= i < |s| ==> IsSpace(s[i])
  }

  /** Python's `isdigit` on ASCII text: false on the empty string, otherwise
      every character is a digit. */
  predicate IsDigitString(s: string) {
    |s| > 0 && AllDigits(s)
  }

  /** The first index at or after `i` that does not hold whitespace, or `|s|`:
      the forward scan of `str.strip()`. */
  function SkipSpace(s: string, i: nat): (k: nat)
    requires i <= |s|
    ensures i <= k <= |s|
    ensures forall m :: i <= m < k ==> IsSpace(s[m])
    ensures k == |s| || !IsSpace(s[k])
    decreases |s| - i
  {
    if i == |s| then i else if IsSpace(s[i]) then SkipSpace(s, i + 1) else i
  }

  /** Scanning back from `j`, never below `lo`: the end of the last character
      that is not whitespace, or `lo`. The backward scan of `str.strip()`. */
  function SkipSpaceBack(s: string, lo: nat, j: nat): (k: nat)
    requires lo <= j <= |s|
    ensures lo <= k <= j
    ensures forall m :: k <= m < j ==> IsSpace(s[m])
    ensures k == lo || !IsSpace(s[k - 1])
    decreases j
  {
    if j == lo then j else if IsSpace(s[j - 1]) then SkipSpaceBack(s, lo, j - 1) else j
  }

  /** The first index that does not hold '+', the scan of `str.lstrip('+')`. */
  function SkipPlus(s: string, i: nat): (k: nat)
    requires i <= |s|
    ensures i <= k <= |s|
    ensures forall m :: i <= m < k ==> s[m] == '+'
    ensures k == |s| || s[k] != '+'
    decreases |s| - i
  {
    if i == |s| then i else if s[i] == '+' then SkipPlus(s, i + 1) else i
  }

  /** `s.strip()`: neither starts nor ends with whitespace. `StripSlice` and
      `StripExact` show that it is the slice of `s` with only whitespace around it. */
  function Strip(s: string): (r: string)
    ensures |r| <= |s|
    ensures r == [] || (!IsSpace(r[0]) && !IsSpace(r[|r| - 1]))
  {
    var i := SkipSpace(s, 0);
    var j := SkipSpaceBack(s, i, |s|);
    if i == 0 && j == |s| then s else s[i..j]
  }

  lemma SpaceSlice(s: string, i: nat, j: nat)
    requires i <= j <= |s|
    requires forall m :: i <= m < j ==> IsSpace(s[m])
    ensures AllSpace(s[i..j])
  {
    forall m | 0 <= m < j - i ensures IsSpace(s[i..j][m]) {
      assert s[i..j][m] == s[i + m];
    }
  }

  /** What `Strip` removes from either end of `s` is whitespace. */
  lemma StripSlice(s: string)
    ensures var r := Strip(s);
            var k := SkipSpace(s, 0);
            && k + |r| <= |s| && r == s[k..k + |r|]
            && AllSpace(s[..k]) && AllSpace(s[k + |r|..])
  {
    var k := SkipSpace(s, 0);
    var j := SkipSpaceBack(s, k, |s|);
    var r := Strip(s);
    assert r == s[k..j] by {
      if k == 0 && j == |s| {
        assert s[0..|s|] == s;
      }
    }
    assert j == k + |r|;
    SpaceSlice(s, 0, k);
    SpaceSlice(s, j, |s|);
    assert s[..k] == s[0..k] && s[j..] == s[j..|s|];
  }

  /** `s.lstrip('+')`: every leading '+' is removed, not only the first one. */
  function StripLeadingPlus(s: string): (r: string)
    ensures |r| <= |s|
    ensures forall i :: 0 <= i < |r| ==> r[i] == s[|s| - |r| + i]
    ensures forall i :: 0 <= i < |s| - |r| ==> s[i] == '+'
    ensures r == [] || r[0] != '+'
  {
    var k := SkipPlus(s, 0);
    if k == 0 then s else s[k..]
  }

  /** Stripping `pre + core + post` gives exactly `core` whenever the padding is
      whitespace and `core` neither starts nor ends with whitespace. */
  lemma StripExact(pre: string, core: string, post: string)
    requires AllSpace(pre) && AllSpace(post)
    requires core == [] || (!IsSpace(core[0]) && !IsSpace(core[|core| - 1]))
    ensures Strip(pre + core + post) == core
  {
    var s := pre + core + post;
    var i := SkipSpace(s, 0);
    var j := SkipSpaceBack(s, i, |s|);
    var a := |pre|;
    var b := |pre| + |core|;
    assert forall m :: 0 <= m < a ==> s[m] == pre[m];
    assert forall m :: b <= m < |s| ==> s[m] == post[m - b];
    if core == [] {
      assert i == |s|;
    } else {
      assert s[a] == core[0];
      assert i == a;
      assert s[b - 1] == core[|core| - 1];
      assert j == b;
      assert s[a..b] == core;
    }
  }

  /** A string that neither starts nor ends with whitespace is left as it is. */
  lemma StripKeeps(s: string)
    requires s == [] || (!IsSpace(s[0]) && !IsSpace(s[|s| - 1]))
    ensures Strip(s) == s
  {
    assert s[0..|s|] == s;
  }

  /** Stripping twice is stripping once. */
  lemma StripIdempotent(s: string)
    ensures Strip(Strip(s)) == Strip(s)
  {
    StripKeeps(Strip(s));
  }

  /** `lstrip('+')` gives exactly `core` after any number of '+' signs, when
      `core` does not itself start with '+'. */
  lemma StripLeadingPlusExact(pluses: string, core: string)
    requires forall i :: 0 <= i < |pluses| ==> pluses[i] == '+'
    requires core == [] || core[0] != '+'
    ensures StripLeadingPlus(pluses + core) == core
  {
    var s := pluses + core;
    var k := SkipPlus(s, 0);
    assert forall m :: 0 <= m < |pluses| ==> s[m] == pluses[m];
    assert k < |s| ==> s[|pluses|] == core[0];
    assert k == |pluses|;
    assert s[k..] == core;
  }

  /** One kind per `ValueError` the source raises; the values it interpolates
      into its messages are kept, the wording is not. */
  datatype Error =
    | NonPositiveTotalLength
    | CountryCodeNotDigits
    | LocalCodeNotDigits
    | TotalLengthTooShort(remaining: int)
    | CapacityExceeded(limit: int, remaining: int, maxPossible: nat)

  datatype Result<T> = Ok(value: T) | Err(error: Error)

  /** A request that passed every check, with the normalised codes and the
      random-digit budget `remaining_length`. */
  datatype Config = Config(
    totalLength: int,
    countryDigits: string,
    localDigits: string,
    remaining: nat,
    limit: int,
    includePlus: bool,
    unique: bool)

  /** What a configuration that passed the checks satisfies. */
  ghost predicate ValidConfig(cfg: Config) {
    && IsDigitString(cfg.countryDigits)
    && AllDigits(cfg.localDigits)
    && cfg.remaining > 0
    && |cfg.countryDigits| + |cfg.localDigits| + cfg.remaining == cfg.totalLength
    && (cfg.unique ==> cfg.limit <= Pow10(cfg.remaining))
  }

  /** The country part: the country code with its surrounding whitespace and
      then all of its leading '+' signs removed. Whitespace right after the
      '+' signs stays, so such a code is later rejected. */
  function CountryDigits(countryCode: string): (r: string)
    ensures |r| <= |countryCode|
    ensures r == [] || (r[0] != '+' && !IsSpace(r[|r| - 1]))
  {
    StripLeadingPlus(Strip(countryCode))
  }

  /** The local part: the local code with its surrounding whitespace removed. */
  function LocalDigits(localCode: string): (r: string)
    ensures |r| <= |localCode|
    ensures r == [] || (!IsSpace(r[0]) && !IsSpace(r[|r| - 1]))
  {
    Strip(localCode)
  }

  /** The checks of `generate_phone_numbers`, in the order the source makes them. */
  function Validate(totalLength: int, countryCode: string, localCode: string,
                    limit: int, includePlus: bool, unique: bool): (r: Result<Config>)
    ensures r.Ok? ==>
      && ValidConfig(r.value)
      && r.value == Config(totalLength, CountryDigits(countryCode), LocalDigits(localCode),
                           r.value.remaining, limit, includePlus, unique)
    ensures r.Err? && r.error.TotalLengthTooShort? ==>
      r.error.remaining == totalLength - |CountryDigits(countryCode)| - |LocalDigits(localCode)| <= 0
    ensures r.Err? && r.error.CapacityExceeded? ==>
      && unique && r.error.limit == limit
      && r.error.remaining == totalLength - |CountryDigits(countryCode)| - |LocalDigits(localCode)|
      && r.error.remaining > 0 && r.error.maxPossible == Pow10(r.error.remaining)
      && r.error.limit > r.error.maxPossible
  {
    if totalLength <= 0 then Err(NonPositiveTotalLength)
    else
      var countryDigits := CountryDigits(countryCode);
      var localDigits := LocalDigits(localCode);
      if !IsDigitString(countryDigits) then Err(CountryCodeNotDigits)
      else if localDigits != [] && !IsDigitString(localDigits) then Err(LocalCodeNotDigits)
      else
        var remaining := totalLength - |countryDigits| - |localDigits|;
        if remaining <= 0 then Err(TotalLengthTooShort(remaining))
        else
          var maxPossible := Pow10(remaining);
          if unique && limit > maxPossible then Err(CapacityExceeded(limit, remaining, maxPossible))
          else Ok(Config(totalLength, countryDigits, localDigits, remaining, limit, includePlus, unique))
  }

  /** A request is accepted exactly when every check passes. */
  lemma Accepted(totalLength: int, countryCode: string, localCode: string,
                 limit: int, includePlus: bool, unique: bool)
    ensures var cd := CountryDigits(countryCode);
            var ld := LocalDigits(localCode);
            Validate(totalLength, countryCode, localCode, limit, includePlus, unique).Ok? <==>
              && totalLength > 0
              && IsDigitString(cd)
              && AllDigits(ld)
              && |cd| + |ld| < totalLength
              && (unique ==> limit <= Pow10(totalLength - |cd| - |ld|))
  {
  }

  /** Which error is reported, by the first check that fails. */
  lemma ErrorCases(totalLength: int, countryCode: string, localCode: string,
                   limit: int, includePlus: bool, unique: bool)
    ensures var r := Validate(totalLength, countryCode, localCode, limit, includePlus, unique);
            var cd := CountryDigits(countryCode);
            var ld := LocalDigits(localCode);
            && (r == Err(NonPositiveTotalLength) <==> totalLength <= 0)
            && (r == Err(CountryCodeNotDigits) <==> totalLength > 0 && !IsDigitString(cd))
            && (r == Err(LocalCodeNotDigits) <==>
                  totalLength > 0 && IsDigitString(cd) && !AllDigits(ld))
            && (r.Err? && r.error.TotalLengthTooShort? <==>
                  totalLength > 0 && IsDigitString(cd) && AllDigits(ld) && totalLength <= |cd| + |ld|)
            && (r.Err? && r.error.CapacityExceeded? <==>
                  totalLength > |cd| + |ld| && IsDigitString(cd) && AllDigits(ld)
                  && unique && limit > Pow10(totalLength - |cd| - |ld|))
  {
  }

  /** The country part is what is left after the surrounding whitespace and
      then every leading '+' are removed. */
  lemma CountryNormalised(spaces1: string, pluses: string, digits: string, spaces2: string)
    requires AllSpace(spaces1) && AllSpace(spaces2)
    requires forall i :: 0 <= i < |pluses| ==> pluses[i] == '+'
    requires IsDigitString(digits)
    ensures CountryDigits(spaces1 + pluses + digits + spaces2) == digits
  {
    var core := pluses + digits;
    assert spaces1 + pluses + digits + spaces2 == spaces1 + core + spaces2;
    assert !IsSpace(core[0]) && !IsSpace(core[|core| - 1]) by {
      assert core[|core| - 1] == digits[|digits| - 1];
      if pluses == [] {
        assert core[0] == digits[0];
      }
    }
    StripExact(spaces1, core, spaces2);
    StripLeadingPlusExact(pluses, digits);
  }

  /** The local part is what is left after the surrounding whitespace is removed. */
  lemma LocalNormalised(spaces1: string, digits: string, spaces2: string)
    requires AllSpace(spaces1) && AllSpace(spaces2)
    requires IsDigitString(digits)
    ensures LocalDigits(spaces1 + digits + spaces2) == digits
  {
    StripExact(spaces1, digits, spaces2);
  }

  /** A code that is already a digit string is left as it is. */
  lemma DigitsKept(s: string)
    requires IsDigitString(s)
    ensures CountryDigits(s) == s && LocalDigits(s) == s
  {
    StripKeeps(s);
    StripLeadingPlusExact([], s);
    assert [] + s == s;
  }

  /** A code made only of whitespace, the empty code included, strips to nothing. */
  lemma StripBlank(s: string)
    requires AllSpace(s)
    ensures Strip(s) == []
  {
    assert SkipSpace(s, 0) == |s|;
  }

  /** A country code that is empty or blank, or made only of '+' signs, or
      that has whitespace between its '+' signs and its digits (such as
      "+ 1"), is rejected. */
  lemma CountryRejections(totalLength: int, blank: string, pluses: string, spaces: string,
                          digits: string, localCode: string, limit: int, includePlus: bool,
                          unique: bool)
    requires totalLength > 0
    requires AllSpace(blank)
    requires |pluses| > 0 && forall i :: 0 <= i < |pluses| ==> pluses[i] == '+'
    requires |spaces| > 0 && AllSpace(spaces)
    requires IsDigitString(digits)
    ensures Validate(totalLength, blank, localCode, limit, includePlus, unique) == Err(CountryCodeNotDigits)
    ensures Validate(totalLength, pluses, localCode, limit, includePlus, unique) == Err(CountryCodeNotDigits)
    ensures Validate(totalLength, pluses + spaces + digits, localCode, limit, includePlus, unique)
            == Err(CountryCodeNotDigits)
  {
    StripBlank(blank);
    assert CountryDigits(blank) == [];
    assert CountryDigits(pluses) == [] by {
      StripKeeps(pluses);
      assert SkipPlus(pluses, 0) == |pluses|;
    }
    var code := pluses + spaces + digits;
    var rest := spaces + digits;
    assert CountryDigits(code) == rest by {
      assert code[0] == pluses[0] && code[|code| - 1] == digits[|digits| - 1];
      StripKeeps(code);
      assert code == pluses + rest;
      assert rest[0] == spaces[0];
      StripLeadingPlusExact(pluses, rest);
    }
    assert !IsDigitString(rest) by {
      assert rest[0] == spaces[0];
    }
  }

  /** Digit codes that already fill the total length leave no random digits;
      the error carries the (non-positive) count, -1 for country "1", local
      "415" and a total of 3. */
  lemma TooShortCase(totalLength: int, country: string, local: string,
                     limit: int, includePlus: bool, unique: bool)
    requires IsDigitString(country) && IsDigitString(local)
    requires 0 < totalLength <= |country| + |local|
    ensures Validate(totalLength, country, local, limit, includePlus, unique)
            == Err(TotalLengthTooShort(totalLength - |country| - |local|))
  {
    DigitsKept(country);
    DigitsKept(local);
  }

  /** Asking for one more unique number than there are random bodies is
      refused with the count of bodies, and the same request without
      uniqueness is accepted. */
  lemma CapacityExample(country: string, local: string, r: nat, includePlus: bool)
    requires IsDigitString(country) && IsDigitString(local) && r > 0
    ensures Validate(|country| + |local| + r, country, local, Pow10(r) + 1, includePlus, true)
            == Err(CapacityExceeded(Pow10(r) + 1, r, Pow10(r)))
    ensures Validate(|country| + |local| + r, country, local, Pow10(r) + 1, includePlus, false).Ok?
  {
    DigitsKept(country);
    DigitsKept(local);
  }
}
