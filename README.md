# Password strength and token generation, in Dafny

This project models the two domain modules of a small password-tool
backend and proves properties of the model.

- **Strength estimator** (`backend/utils/password_strength.py`).
  - `calculate_entropy` finds which of four character classes occur in a
    password: lower case, upper case, digits and ASCII punctuation. It sums
    their pool sizes (26, 26, 10, 32). It returns `len * log2(pool)` rounded
    to two decimals, or `0.0` when no class occurs.
  - `score_from_entropy` maps an entropy to `min(int(1.5 * e), 100)`.
  - `crack_time_from_entropy` turns `2 ** e / 1e9` seconds into
    `"<int> <unit>"`. It walks a fixed ladder of units: seconds, minutes,
    hours, days, years, centuries.
- **Token generator** (`backend/utils/token_generator.py`).
  - `generate_token` splits a key on commas and strips each part.
  - It looks each name up in the table `CHARSETS` (letters, digits,
    specials) and concatenates the entries into one pool.
  - It raises `Invalid charset` on an unknown name and `Empty charset` on an
    empty pool.
  - It then draws `length` characters from the pool.

Modules:

- `Ascii` (`ascii.dfy`) models the tables of Python's `string` module and
  the character predicates of `str`.
  - Lowercase is `ascii_lowercase`, Uppercase `ascii_uppercase`, Letters
    `ascii_letters`, Digits `digits` and Punctuation `punctuation`.
  - `IsLower`, `IsUpper` and `IsDigit` model `islower`, `isupper` and
    `isdigit`. `IsSpace` models `isspace`, with its full Unicode set.
  - Membership in each table is proved equal to a code-point predicate.
- `PyStr` (`pystr.dfy`) models the string operations the code uses:
  `str.split(',')`, `str.strip()` and `str(int)`.
  - `Join` (`sep.join`) is not used by the code. It is included as the
    partner of `Split` for the round trips `JoinSplit` and `SplitJoin`.
  - `Strip` has its characterising laws. `NatToString` and `IntToString`
    are read back by `DecimalRoundTrip` and `IntRoundTrip`.
  - The only join in the code is `"".join(...)` over the drawn characters,
    and `TokenGenerator.Draws` models it.
- `PasswordStrength` (`password_strength.dfy`) holds the estimator.
  - `CalculateEntropy` and `CrackTimeFromEntropy` are methods that follow the
    source's step-by-step accumulation and its loop.
  - Each is proved equal to a specification function: `Entropy` and
    `Render(Ladder(...))`.
  - The laws the estimator promises are proved about those functions.
- `TokenGenerator` (`token_generator.dfy`) holds the generator.
  - `GenerateToken` calls `ResolvePool`, the loop over the key's parts, and
    then `DrawToken`, the loop of draws.
  - Both loops are proved against the functions `Resolve` and `Draws`.
  - The table is passed to the resolution functions and lemmas as a
    parameter, and the facts about `CHARSETS` itself are proved separately.
  - The random source is a parameter `choose`, an *index oracle*:
    `choose(k, n)` is the index below `n` that the `k`-th draw picks.

Floating point is modelled by Dafny's exact `real`.

- `math.log2` and `2 ** x` are parameters `log2` and `pow2`. A lemma that
  needs one fact about them, such as `log2(x) >= 0` from 1 on or
  `pow2(40) == 2^40`, takes it as a precondition.
- `round(x, 2)` is round-half-to-even on the exact value. `int(x)` truncates
  toward zero.

An empty key might be expected to fail with `EmptyCharset`. It fails with
`InvalidCharset` instead, because `"".split(",")` is `[""]` and `""` is not a
table name (`TokenGenerator.EmptyKeyIsInvalid`).

## Model

| member | source | states |
|---|---|---|
| Ascii.LowercaseMembership | backend/utils/password_strength.py:8 | a character is in `ascii_lowercase` exactly when it is an ASCII lower-case letter |
| Ascii.UppercaseMembership | backend/utils/password_strength.py:10 | a character is in `ascii_uppercase` exactly when it is an ASCII upper-case letter |
| Ascii.DigitsMembership | backend/utils/password_strength.py:12 | a character is in `digits` exactly when it is an ASCII digit |
| Ascii.PunctuationMembership | backend/utils/password_strength.py:14 | a character is in `string.punctuation` exactly when it lies in one of the four ASCII punctuation runs |
| Ascii.PunctuationIsolated | backend/utils/password_strength.py:8-14 | a punctuation character is not lower case, upper case, a digit or whitespace |
| Ascii.TableShapes | backend/utils/password_strength.py:15 | the tables have 26, 26, 52, 10 and 32 characters, and none repeats a character |
| PyStr.Split | backend/utils/token_generator.py:11 | `split` never returns an empty list, and no piece contains the separator |
| PyStr.JoinSplit | backend/utils/token_generator.py:11 | joining the pieces of a split with the separator gives back the key |
| PyStr.SplitJoin | backend/utils/token_generator.py:11 | splitting a join of separator-free pieces gives back the pieces |
| PyStr.TrimStartShape | backend/utils/token_generator.py:15 | the left strip keeps a suffix, cuts only whitespace and leaves no whitespace at the front |
| PyStr.TrimEndShape | backend/utils/token_generator.py:15 | the right strip keeps a prefix, cuts only whitespace and leaves no whitespace at the back |
| PyStr.StripCutsOnlySpace | backend/utils/token_generator.py:15 | `strip()` returns a contiguous piece with only whitespace cut on each side, and neither of its ends is whitespace |
| PyStr.StripPadded | backend/utils/token_generator.py:15 | whitespace around a name with trimmed ends is removed exactly, leaving the name |
| PyStr.StripTrimmedString | backend/utils/token_generator.py:15 | a string without whitespace at either end is left unchanged by `strip()` |
| PyStr.StripIdempotent | backend/utils/token_generator.py:15 | stripping twice is stripping once |
| PyStr.NatToString | backend/utils/password_strength.py:41 | `str(n)` is a non-empty run of decimal digits; it starts with `0` only when `n` is 0, and a string of two or more digits never starts with `0` (so `str(0)` is `"0"`) |
| PyStr.DecimalRoundTrip | backend/utils/password_strength.py:41 | reading back the digits of `str(n)` gives `n` |
| PyStr.IntToString | backend/utils/password_strength.py:41 | `str(n)` of an integer starts with `-` exactly when `n` is negative, followed by the digits of its magnitude |
| PyStr.IntRoundTrip | backend/utils/password_strength.py:41 | reading back the sign and digits of `str(n)` gives `n` |
| PasswordStrength.ClassesPresent | backend/utils/password_strength.py:8-14 | a class is present exactly when some character of the password belongs to it |
| PasswordStrength.ClassAlphabetMembership | backend/utils/password_strength.py:8-14 | a character is in a class's table exactly when it passes that class's test |
| PasswordStrength.ClassesDisjoint | backend/utils/password_strength.py:8-14 | no character belongs to two classes |
| PasswordStrength.ClassAlphabetShape | backend/utils/password_strength.py:9-15 | each class's table has as many characters as the class adds to the pool, with no repeats |
| PasswordStrength.AppendClass | backend/utils/password_strength.py:8-15 | adding the table of a new class keeps the alphabet free of repeats and extends what it covers by that class |
| PasswordStrength.AlphabetNoDuplicates | backend/utils/password_strength.py:6-15 | the alphabet spanned by the present classes repeats no character |
| PasswordStrength.AlphabetMembership | backend/utils/password_strength.py:6-15 | a character is in that alphabet exactly when it belongs to a present class |
| PasswordStrength.PoolIsAlphabetSize | backend/utils/password_strength.py:6-15 | the pool equals the number of distinct characters the present classes span |
| PasswordStrength.PoolSizeValues | backend/utils/password_strength.py:6-15 | the pool is one of the subset sums of 26, 26, 10 and 32, is at most 94, and is 0 exactly when no class is present |
| PasswordStrength.RoundHalfEven | backend/utils/password_strength.py:21 | the result is an integer within 0.5 of the input, and a tie goes to the even neighbour |
| PasswordStrength.RoundHalfEvenMonotone | backend/utils/password_strength.py:21 | rounding never reverses order |
| PasswordStrength.Round2 | backend/utils/password_strength.py:21 | `round(x, 2)` is a whole number of hundredths within 0.005 of `x`, and on a tie it is the even hundredth |
| PasswordStrength.Round2Monotone | backend/utils/password_strength.py:21 | `round(x, 2)` never reverses order |
| PasswordStrength.Round2NonNegative | backend/utils/password_strength.py:21 | `round(x, 2)` of a non-negative value is non-negative |
| PasswordStrength.Trunc | backend/utils/password_strength.py:41 | `int(x)` is the integer next to `x` toward zero |
| PasswordStrength.TruncMonotone | backend/utils/password_strength.py:41 | `int(x)` never reverses order |
| PasswordStrength.CalculateEntropy | backend/utils/password_strength.py:5-21 | the accumulated pool gives `Entropy`; the result is 0.0 when no class is present, and otherwise within 0.005 of `len * log2(pool)` |
| PasswordStrength.EntropyDependsOnlyOnShape | backend/utils/password_strength.py:8-21 | two passwords of equal length with the same classes present get equal entropy |
| PasswordStrength.EntropyOfEmpty | backend/utils/password_strength.py:17-18 | the empty password has entropy exactly 0.0 |
| PasswordStrength.EntropyWithoutClasses | backend/utils/password_strength.py:17-18 | a password with no character in any class, such as pure whitespace, has entropy exactly 0.0 |
| PasswordStrength.ExactEntropyMonotone | backend/utils/password_strength.py:20 | the unrounded entropy is non-negative and grows with the length |
| PasswordStrength.EntropyNonNegative | backend/utils/password_strength.py:17-21 | entropy is never negative |
| PasswordStrength.EntropyMonotoneInLength | backend/utils/password_strength.py:20-21 | for a fixed class set, a longer password never has lower entropy |
| PasswordStrength.EntropyOfEightLowercase | backend/utils/password_strength.py:8-21 | "aaaaaaaa" has pool 26 and entropy `round(8 * log2(26), 2)` |
| PasswordStrength.ScoreFromEntropy | backend/utils/password_strength.py:47-50 | the score is at most 100, is 100 exactly when `1.5 * e >= 100`, is non-negative for non-negative `e`, and for non-negative `e`, below the cap it is `floor(1.5 * e)` |
| PasswordStrength.ScoreMonotone | backend/utils/password_strength.py:49 | a higher entropy never gets a lower score |
| PasswordStrength.Prefix | backend/utils/password_strength.py:29-36 | one unit of each rung is at least one second |
| PasswordStrength.PrefixValues | backend/utils/password_strength.py:29-36 | the cumulative limits are 60, 3600, 86400, 31536000 and 3153600000 seconds |
| PasswordStrength.PrefixIncreasing | backend/utils/password_strength.py:29-36 | each rung's unit is strictly larger than the one before |
| PasswordStrength.FirstFit | backend/utils/password_strength.py:38-42 | the chosen rung is the first from `k` on whose next rung the seconds do not reach |
| PasswordStrength.Rung | backend/utils/password_strength.py:29-36 | only the last rung has no limit; every other rung's limit is positive and converts to the next unit |
| PasswordStrength.LadderStep | backend/utils/password_strength.py:40-42 | the loop's test `value < limit` compares the seconds with one unit of the next rung, and `value /= limit` is the value in that unit |
| PasswordStrength.CrackTimeFromEntropy | backend/utils/password_strength.py:24-44 | the loop returns `Render(Ladder(2 ** e / 1e9))` and never "infinite" |
| PasswordStrength.RenderNeverInfinite | backend/utils/password_strength.py:41-44 | a rendered estimate contains a space, so it is never "infinite" |
| PasswordStrength.UnitIndexIff | backend/utils/password_strength.py:29-42 | the unit is `k` exactly when the seconds reach one unit `k` (except for the first rung) and stay below one unit `k + 1` (except for the last) |
| PasswordStrength.AmountWithinLimit | backend/utils/password_strength.py:38-42 | below the last rung the reported amount is under that rung's limit, and above the first rung it is at least 1 |
| PasswordStrength.UnderAMinuteIsSeconds | backend/utils/password_strength.py:40-41 | anything under 60 seconds is reported in seconds, truncated |
| PasswordStrength.ExactlyAMinute | backend/utils/password_strength.py:40-42 | exactly 60 seconds renders "1 minutes" |
| PasswordStrength.ZeroEntropy | backend/utils/password_strength.py:25-27 | entropy 0 is a billionth of a second and renders "0 seconds" |
| PasswordStrength.FortyBits | backend/utils/password_strength.py:25-42 | entropy 40, 1099.511627776 seconds, renders "18 minutes" |
| PasswordStrength.CenturiesIsUnbounded | backend/utils/password_strength.py:35 | every value of at least a century is reported in centuries, however large |
| TokenGenerator.StripAll | backend/utils/token_generator.py:14-15 | each part is stripped, in order |
| TokenGenerator.Names | backend/utils/token_generator.py:11-15 | a key lists at least one name, and the `i`-th name is the `i`-th comma-separated part, stripped |
| TokenGenerator.Resolve | backend/utils/token_generator.py:14-21 | a successful resolution never has an empty pool |
| TokenGenerator.Draws | backend/utils/token_generator.py:23 | `count` draws give `count` characters, the `k`-th at the oracle's `k`-th index into the pool |
| TokenGenerator.PoolOfAppend | backend/utils/token_generator.py:18 | the pool of two name lists is the concatenation of their pools, in order and with repeats |
| TokenGenerator.ResolvePool | backend/utils/token_generator.py:11-21 | the loop over the parts returns `Resolve` of the stripped parts: the first unknown name fails with InvalidCharset, then an empty pool fails with EmptyCharset |
| TokenGenerator.DrawToken | backend/utils/token_generator.py:23 | the loop of draws returns `Draws` for `length` draws, or none when `length` is not positive |
| TokenGenerator.GenerateToken | backend/utils/token_generator.py:10-23 | the result is `Generate` over `CHARSETS` and the names of the key |
| TokenGenerator.GenerateOutcome | backend/utils/token_generator.py:14-23 | failure happens exactly when resolution fails, with the same error and no token; on success the token has `max(length, 0)` characters, each drawn from the pool at the oracle's index |
| TokenGenerator.CharsetsTable | backend/utils/token_generator.py:4-8 | the table has exactly the keys letters, digits and specials, with 52, 10 and 32 characters, every entry non-empty and without repeats |
| TokenGenerator.CharsetsContents | backend/utils/token_generator.py:5-6 | "letters" holds exactly the ASCII letters and "digits" exactly the ASCII digits |
| TokenGenerator.CharsetsSized | backend/utils/token_generator.py:4-8 | every entry of the table has between 10 and 52 characters |
| TokenGenerator.PoolOfLength | backend/utils/token_generator.py:14-18 | with such a table, the pool has between 10 and 52 characters per name |
| TokenGenerator.PoolOfMembership | backend/utils/token_generator.py:18 | a character is in the pool exactly when it is in the entry of one of the names |
| TokenGenerator.ResolveOutcome | backend/utils/token_generator.py:14-21 | resolution fails exactly when some name is not in the table, never with EmptyCharset, and on success gives the concatenated entries, at least 10 characters |
| TokenGenerator.NeverEmptyCharset | backend/utils/token_generator.py:20-21 | with `CHARSETS`, no key ever triggers "Empty charset" |
| TokenGenerator.TokenFromPool | backend/utils/token_generator.py:18-23 | every token character belongs to the entry of one of the listed names |
| TokenGenerator.EmptyKeyIsInvalid | backend/utils/token_generator.py:11-17 | the key "" lists the single name "" and fails with InvalidCharset |
| TokenGenerator.JoinedNames | backend/utils/token_generator.py:11-15 | comma-free names with trimmed ends, joined by commas, form a key that lists exactly those names |
| TokenGenerator.PaddedPart | backend/utils/token_generator.py:15 | a part made of a name with whitespace around it strips to the name |
| TokenGenerator.SpacesAroundNamesIgnored | backend/utils/token_generator.py:11-15 | padding the names of a key with whitespace does not change the names it lists |
| TokenGenerator.RepeatedNameKept | backend/utils/token_generator.py:18 | naming an entry twice puts it in the pool twice |
| TokenGenerator.CharsetNamesUsable | backend/utils/token_generator.py:4-8 | the table's names have no comma and no whitespace at either end |
| TokenGenerator.SpacedKeyExample | backend/utils/token_generator.py:11-15 | " digits , letters " lists the same names as "digits,letters" |
| TokenGenerator.RepeatedKeyExample | backend/utils/token_generator.py:12-18 | "digits,digits" resolves to the digits twice, a 20-character pool |

## Left out

- Floating point: entropy, seconds and the ladder are exact reals. IEEE-754
  rounding in `len * log2(pool)`, in `round(x, 2)` and in the repeated
  divisions is not modelled. The same holds for Python's `round` on the
  binary value rather than the decimal one.
- `math.log2` and `2 ** entropy` are caller-supplied functions that are not
  modelled. Lemmas that need a value of them take it as a precondition.
- `pow2` is not required to be positive, so a negative amount of seconds,
  and with it `Render`'s minus sign, is reachable in the model. For Python's
  `2 ** x` it never is.
- The `OverflowError` that `2 ** entropy` raises above about 1024 bits is not
  modelled, because `pow2` is total on reals.
- `str.islower`, `str.isupper` and `str.isdigit` are restricted to ASCII.
  Python also accepts non-ASCII letters and digits, so the model gives a
  smaller pool for such passwords.
- The randomness of `secrets.choice` is the parameter `choose`, constrained
  only to return an index inside the pool. Uniformity and unpredictability
  are not modelled.
- `backend/app.py` is not part of this model. That covers HTTP routing, CORS,
  rate limiting, the `8 <= length <= 64` request check and the hash endpoint
  over `hashlib` and `bcrypt`.
- The texts of the two `ValueError`s ("Invalid charset" and "Empty charset")
  are represented by the error constructors `InvalidCharset` and
  `EmptyCharset`, not by strings.
- `TokenGenerator.Charsets` is a function rather than a module constant.
  The value is the same.
