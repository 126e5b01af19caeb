# Random phone number generator, modelled in Dafny

This project models `generate_phone_numbers` from
`Random-Phone-Number-Generator.py` and proves properties of the model. The
function has two parts.

- It validates and normalises the request. The country code is stripped of
  whitespace and then of every leading `+`. The local code is stripped of
  whitespace. Both must be digits, with the local code allowed to be empty.
  The total length must leave a positive number of random digits,
  `remaining_length`. With `unique`, `limit` may not exceed
  `10 ** remaining_length`.
- It then runs a loop. Each pass draws `remaining_length` random digits to
  build a candidate `country_digits + local_digits + body`. Under `unique`, a
  candidate already in `seen` is discarded. Otherwise the candidate is
  appended, with or without a leading `+`.

Modules:

- `Digits` defines the ASCII digits and `10^n`. It also defines the decimal
  value of a digit string. It uses that value to prove that a fixed prefix
  followed by `n` digits gives at most `10^n` distinct strings. `Encode`
  gives one body for each value below `10^n`.
- `Validation` models Python's `str.strip()` and `str.lstrip('+')`. As in
  CPython, `strip()` scans from both ends and `lstrip('+')` from the left
  only. The module also holds the error
  kinds, the validated `Config` and `Validate`, which makes the checks in
  the source's order.
- `Generator` holds the loop as a specification function `Run` and as the
  method `GenerationLoop`. The method uses a `while` loop over a
  `seq<string>` of results and a `set<string>` named `seen`.
  `GeneratePhoneNumbers` is the whole call.

The random source is modelled as a parameter. `draws: seq<Digit>` is the
sequence of digits that successive `rng.choice('0123456789')` calls return.
Each pass consumes the next `remaining_length` of them. If the sequence runs
out before `limit` numbers are collected, the model returns `DrawsExhausted`.
The source has an inexhaustible random source and would keep drawing. So
every property of a `Generated` result is a partial-correctness statement
that holds for every possible sequence of draws.
`AcceptedRequestCanFinish` and `CapacityRefusalIsExact` show that the
capacity check is exactly the condition for whether some sequence of draws
lets the loop finish.

The module docstring says a leading `+` is accepted. The code calls
`lstrip('+')`, which removes every leading `+`, so `"++1"` is accepted as
country `1`. The model follows the code.

## Model

| member | source | states |
|---|---|---|
| `Digits.Pow10` | Random-Phone-Number-Generator.py:63 | `10 ** n`, which is at least 1; the bound of `Value` and the count in `PrefixedBodiesBound` are stated with it |
| `Digits.Value` | Random-Phone-Number-Generator.py:63 | a digit string of length n has a decimal value below 10^n |
| `Digits.ValueInjective` | Random-Phone-Number-Generator.py:63 | two digit strings of equal length with the same value are equal |
| `Digits.EncodeValue` | Random-Phone-Number-Generator.py:63 | every value below 10^n is the value of an n-digit body (`Encode`), so all 10^n bodies exist |
| `Digits.EncodeInjective` | Random-Phone-Number-Generator.py:63 | distinct values below 10^n give distinct n-digit bodies |
| `Digits.ValuesCard` | Random-Phone-Number-Generator.py:63-64 | strings made of a fixed prefix and n digits are counted exactly by the values of their digit parts |
| `Digits.PrefixedBodiesBound` | Random-Phone-Number-Generator.py:63-64 | there are at most `10 ** remaining_length` strings of the form prefix + `remaining_length` digits |
| `Validation.IsSpace` | Random-Phone-Number-Generator.py:48-49 | the characters for which Python's `str.isspace()` holds, which `strip()` removes: 0x09-0x0D, 0x1C-0x20, 0x85, 0xA0, 0x1680, 0x2000-0x200A, 0x2028, 0x2029, 0x202F, 0x205F and 0x3000 |
| `Validation.IsDigitString` | Random-Phone-Number-Generator.py:51-53 | `str.isdigit()`: false on the empty string, otherwise every character is an ASCII digit; its use is stated by `Accepted` and `ErrorCases` |
| `Validation.CountryDigits` | Random-Phone-Number-Generator.py:48 | the country part is no longer than the code, does not start with '+' and does not end with whitespace; for every code its exact value follows from the contracts of `Strip` and `StripSlice` together with those of `StripLeadingPlus`; `CountryNormalised` and `DigitsKept` work it out for codes made of whitespace, '+' signs, digits and whitespace |
| `Validation.LocalDigits` | Random-Phone-Number-Generator.py:49 | the local part is no longer than the code and neither starts nor ends with whitespace; `LocalNormalised` and `DigitsKept` give its exact value |
| `Validation.SkipSpace` | Random-Phone-Number-Generator.py:48-49 | the forward scan of `strip()` stops at the first non-whitespace position, having passed only whitespace |
| `Validation.SkipSpaceBack` | Random-Phone-Number-Generator.py:48-49 | the backward scan of `strip()` stops after the last non-whitespace character, never below the forward scan |
| `Validation.SkipPlus` | Random-Phone-Number-Generator.py:48 | the scan of `lstrip('+')` passes only '+' and stops at the first other character |
| `Validation.Strip` | Random-Phone-Number-Generator.py:48-49 | `strip()` returns a string that neither starts nor ends with whitespace |
| `Validation.StripSlice` | Random-Phone-Number-Generator.py:48-49 | `strip()` returns a slice of its input, and everything it cut away on either side is whitespace |
| `Validation.StripExact` | Random-Phone-Number-Generator.py:48-49 | whitespace + core + whitespace strips to exactly core when core has no whitespace at its ends |
| `Validation.StripKeeps` | Random-Phone-Number-Generator.py:48-49 | a string without whitespace at its ends is returned unchanged |
| `Validation.StripIdempotent` | Random-Phone-Number-Generator.py:48-49 | stripping twice is stripping once |
| `Validation.StripBlank` | Random-Phone-Number-Generator.py:48 | an empty or all-whitespace code strips to the empty string |
| `Validation.StripLeadingPlus` | Random-Phone-Number-Generator.py:48 | `lstrip('+')` returns a suffix, removes only '+' characters and leaves no leading '+' |
| `Validation.StripLeadingPlusExact` | Random-Phone-Number-Generator.py:48 | any number of '+' signs before a core not starting with '+' are all removed |
| `Validation.Validate` | Random-Phone-Number-Generator.py:45-68 | an accepted request gives a configuration with a non-empty digit country part, a digit (possibly empty) local part, `remaining_length` > 0 and digits adding up to `total_length`, within capacity under `unique`; the too-short error carries the non-positive `remaining_length`; the capacity error happens only under `unique` and carries `limit`, the positive `remaining_length` and `max_possible` = `10 ** remaining_length`, with `limit` > `max_possible` |
| `Validation.Accepted` | Random-Phone-Number-Generator.py:45-68 | a request is accepted if and only if all five checks pass, the capacity check applying only with `unique` |
| `Validation.ErrorCases` | Random-Phone-Number-Generator.py:45-68 | each error kind is reported exactly when its check is the first one to fail, starting with a non-positive `total_length` |
| `Validation.CountryNormalised` | Random-Phone-Number-Generator.py:48 | the country part of whitespace + '+'s + digits + whitespace is exactly the digits |
| `Validation.LocalNormalised` | Random-Phone-Number-Generator.py:49 | the local part of whitespace + digits + whitespace is exactly the digits |
| `Validation.DigitsKept` | Random-Phone-Number-Generator.py:48-49 | codes that are already digit strings are unchanged by normalisation |
| `Validation.CountryRejections` | Random-Phone-Number-Generator.py:48-52 | an empty or blank country code, one of only '+' signs, and one with whitespace between '+' and digits (such as "+ 1") are rejected as not digits |
| `Validation.TooShortCase` | Random-Phone-Number-Generator.py:56-61 | digit codes that fill the total length are rejected with `remaining_length` = total - lengths, for example -1 for country "1", local "415" and total 3 |
| `Validation.CapacityExample` | Random-Phone-Number-Generator.py:63-68 | asking for 10^r + 1 unique numbers is refused with maximum 10^r, and the same request without `unique` is accepted |
| `Generator.Full` | Random-Phone-Number-Generator.py:75 | `full_number` is the country digits and local digits followed by exactly the body |
| `Generator.Format` | Random-Phone-Number-Generator.py:81-84 | the appended string has a '+' in front exactly under `include_plus`, and removing it gives back `full_number` |
| `Generator.Step` | Random-Phone-Number-Generator.py:76-84 | one pass keeps the earlier results as a prefix and adds at most one number; without `unique`, `seen` is untouched; the invariants it keeps are in `StepKeepsProgress` |
| `Generator.Run` | Random-Phone-Number-Generator.py:70-86 | the loop from (`results`, `seen`) on the remaining draws; a finished run keeps `results` as a prefix and has at least `limit` numbers; the rest is in `RunSound`, `UniqueRunNeedsCapacity` and `RunOnDistinctDraws` |
| `Generator.Generate` | Random-Phone-Number-Generator.py:30-86 | the call is rejected exactly when `Validate` fails, with the same error; what a generated list holds is in `RunSound` and `NumberShape` |
| `Generator.FormatIsNumber` | Random-Phone-Number-Generator.py:74-84 | a candidate built from a body of `remaining_length` digits is well formed, and removing the optional '+' gives back `full_number` |
| `Generator.AppendNumber` | Random-Phone-Number-Generator.py:81-84 | appending a well-formed number keeps every result well formed |
| `Generator.AppendedGrows` | Random-Phone-Number-Generator.py:79-84 | appending a number adds exactly its unprefixed form to the set of unprefixed results |
| `Generator.FreshIsDistinct` | Random-Phone-Number-Generator.py:76-84 | a number whose unprefixed form was not seen differs from every earlier result |
| `Generator.StepKeepsProgress` | Random-Phone-Number-Generator.py:73-84 | one pass keeps the invariants (all results are well formed; under `unique`, `seen` equals the set of unprefixed results, has one element per result, and all results are distinct; without it `seen` stays empty) and appends at most one number, and always exactly one without `unique` |
| `Generator.RunSound` | Random-Phone-Number-Generator.py:70-86 | whenever the loop finishes it returns exactly `max(limit, 0)` well-formed numbers, pairwise distinct under `unique` |
| `Generator.NothingRequested` | Random-Phone-Number-Generator.py:73-86 | an accepted request with `limit` <= 0 returns the empty list on any draws |
| `Generator.UniqueRunNeedsCapacity` | Random-Phone-Number-Generator.py:63-79 | under `unique`, if the loop finishes on any draws then `limit` <= `10 ** remaining_length` |
| `Generator.DistinctBodies` | Random-Phone-Number-Generator.py:74 | the list of `c` bodies whose `k`-th element is `Encode(c - 1 - k, n)` |
| `Generator.DistinctDrawsBodies` | Random-Phone-Number-Generator.py:74 | the digit stream `DistinctDraws(n, c)` is exactly the bodies of `DistinctBodies(n, c)` laid end to end |
| `Generator.DistinctBodiesDistinct` | Random-Phone-Number-Generator.py:74-79 | when `c` <= 10^n, every body of `DistinctBodies(n, c)` has `n` digits and no two bodies are equal, so no draw of the stream collides |
| `Generator.RunOnDistinctDraws` | Random-Phone-Number-Generator.py:70-86 | on the stream `DistinctDraws(remaining_length, c)`, when none of its candidates `Full(cfg, Encode(j, remaining_length))` is already in `seen`, the loop finishes once `c` covers the numbers still missing (`c` <= 10^remaining_length under `unique`) |
| `Generator.AcceptedRequestCanFinish` | Random-Phone-Number-Generator.py:63-86 | every accepted request has a sequence of draws on which the call returns its numbers |
| `Generator.CapacityRefusalIsExact` | Random-Phone-Number-Generator.py:63-68 | a request refused only for capacity is accepted without `unique`, yet a unique loop on it finishes on no draws at all |
| `Generator.NumberShape` | Random-Phone-Number-Generator.py:74-84 | the digits of each number have exactly `total_length` characters, all ASCII digits, and start with country + local digits; the number starts with '+' if and only if `include_plus`; no other '+' occurs |
| `Generator.RunUnfolds` | Random-Phone-Number-Generator.py:73-74 | one more pass consumes the next `remaining_length` digits of the stream |
| `Generator.GenerationLoop` | Random-Phone-Number-Generator.py:70-86 | the `while` loop computes `Run` from no results and an empty `seen`; when it finishes it returns `max(limit, 0)` well-formed numbers, distinct under `unique` |
| `Generator.GeneratePhoneNumbers` | Random-Phone-Number-Generator.py:30-86 | the whole call equals `Generate`; it is rejected exactly when validation fails, and a generated list has `max(limit, 0)` well-formed numbers, distinct under `unique` |

## Left out

- `save_to_csv` (Random-Phone-Number-Generator.py:89-96) is left out. It is file I/O through the `csv` library.
- `prompt_int`, `interactive_mode`, `parse_args` and `main` (Random-Phone-Number-Generator.py:99-193) are left out. They are console I/O, argparse and `sys.exit` plumbing.
- `random.SystemRandom` (Random-Phone-Number-Generator.py:27) becomes the `draws` parameter. The model says nothing about the statistical or cryptographic quality of the digits.
- Generator.GenerationLoop: proves partial correctness only. Termination of the retry loop is probabilistic in the source. On a finite stream the model returns `DrawsExhausted` instead of drawing forever.
- Generator.GeneratePhoneNumbers: the same partial-correctness limit applies. `DrawsExhausted` is a model artefact, not an outcome of the source.
- Validation.Validate: models `str.isdigit()` as ASCII `'0'..'9'` only. Python also accepts other Unicode decimal digits and digit-like characters such as superscripts.
- The default values `include_plus=True` and `unique=True` (Random-Phone-Number-Generator.py:34-35) are left out: `Generate` and `GeneratePhoneNumbers` take both flags explicitly, and every value of each flag is modelled.
- The wording of the error messages is left out. Each `ValueError` is an `Error` kind that keeps the values the message interpolates.
- Validation.Strip: the whitespace set is the fixed list of characters for which Python's `str.isspace()` holds. Unicode database versions are not modelled.
