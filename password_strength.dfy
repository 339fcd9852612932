/** The strength estimator: character-class pool, entropy rounded to two
    decimals, a 0..100 score, and an offline crack-time estimate walked up a
    fixed unit ladder. Floating point is modelled by `real`; `math.log2` and
    `2 ** x` are supplied by the caller as the functions `log2` and `pow2`. */
module PasswordStrength {
  import opened Ascii
  import opened PyStr

  // ---------------------------------------------------------------------------
  // Character classes and the pool
  // ---------------------------------------------------------------------------

  datatype CharClass = Lower | Upper | Digit | Punct

  /** The membership test the estimator applies to each character. */
  predicate InClass(c: char, k: CharClass) {
    match k
    case Lower => IsLower(c)
    case Upper => IsUpper(c)
    case Digit => IsDigit(c)
    case Punct => IsPunctuation(c)
  }

  /** The amount a class adds to the pool when present. */
  function ClassPool(k: CharClass): nat {
    match k
    case Lower => 26
    case Upper => 26
    case Digit => 10
    case Punct => |Punctuation|
  }

  /** The characters of a class, as listed in Python's `string` module. */
  function ClassAlphabet(k: CharClass): string {
    match k
    case Lower => Lowercase
    case Upper => Uppercase
    case Digit => Digits
    case Punct => Punctuation
  }

  /** `any(test(c) for c in password)` for the test of class `k`. */
  predicate HasClass(password: string, k: CharClass) {
    exists i :: 0 <= i < |password| && InClass(password[i], k)
  }

  /** The classes that occur in the password. */
  function ClassesPresent(password: string): (classes: set<CharClass>)
    ensures forall k :: k in classes <==> HasClass(password, k)
  {
    (if HasClass(password, Lower) then {Lower} else {})
    + (if HasClass(password, Upper) then {Upper} else {})
    + (if HasClass(password, Digit) then {Digit} else {})
    + (if HasClass(password, Punct) then {Punct} else {})
  }

  /** The sum of the pool sizes of the given classes. */
  function PoolSize(classes: set<CharClass>): nat {
    (if Lower in classes then ClassPool(Lower) else 0)
    + (if Upper in classes then ClassPool(Upper) else 0)
    + (if Digit in classes then ClassPool(Digit) else 0)
    + (if Punct in classes then ClassPool(Punct) else 0)
  }

  /** The table a class contributes to the alphabet of `classes`. */
  function Part(classes: set<CharClass>, k: CharClass): string {
    if k in classes then ClassAlphabet(k) else ""
  }

  /** The alphabet that a set of classes spans: their tables, concatenated. */
  function Alphabet(classes: set<CharClass>): string {
    Part(classes, Lower) + Part(classes, Upper) + Part(classes, Digit) + Part(classes, Punct)
  }

  lemma ClassAlphabetMembership(c: char, k: CharClass)
    ensures c in ClassAlphabet(k) <==> InClass(c, k)
  {
    match k
    case Lower => LowercaseMembership(c);
    case Upper => UppercaseMembership(c);
    case Digit => DigitsMembership(c);
    case Punct => PunctuationMembership(c);
  }

  /** No character belongs to two classes. */
  lemma ClassesDisjoint(c: char, k1: CharClass, k2: CharClass)
    requires InClass(c, k1) && InClass(c, k2)
    ensures k1 == k2
  {
    if IsPunctuation(c) {
      PunctuationIsolated(c);
    }
  }

  lemma ClassAlphabetShape(k: CharClass)
    ensures |ClassAlphabet(k)| == ClassPool(k)
    ensures NoDuplicates(ClassAlphabet(k))
  {
    TableShapes();
  }

  /** Every character of `a` belongs to one of `classes`. */
  predicate Covered(a: string, classes: set<CharClass>) {
    forall c :: c in a ==> exists j :: j in classes && InClass(c, j)
  }

  /** Appending the table of a class not yet covered keeps the alphabet free
      of repeats and extends what it covers by that class. */
  lemma AppendClass(a: string, classes: set<CharClass>, k: CharClass)
    requires NoDuplicates(a) && Covered(a, classes) && k !in classes
    ensures NoDuplicates(a + ClassAlphabet(k))
    ensures Covered(a + ClassAlphabet(k), classes + {k})
  {
    ClassAlphabetShape(k);
    forall c | c in a ensures c !in ClassAlphabet(k) {
      var j :| j in classes && InClass(c, j);
      if c in ClassAlphabet(k) {
        ClassAlphabetMembership(c, k);
        ClassesDisjoint(c, j, k);
      }
    }
    NoDuplicatesConcat(a, ClassAlphabet(k));
    forall c | c in a + ClassAlphabet(k) ensures exists j :: j in classes + {k} && InClass(c, j) {
      if c in ClassAlphabet(k) {
        ClassAlphabetMembership(c, k);
      } else {
        var j :| j in classes && InClass(c, j);
      }
    }
  }

  /** Appending the table of a class that is absent changes nothing. */
  lemma SkipClass(a: string, classes: set<CharClass>)
    requires NoDuplicates(a) && Covered(a, classes)
    ensures NoDuplicates(a + "") && Covered(a + "", classes)
  {
    assert a + "" == a;
  }

  /** The alphabet spanned by the present classes repeats no character. */
  lemma AlphabetNoDuplicates(classes: set<CharClass>)
    ensures NoDuplicates(Alphabet(classes))
  {
    var a0 := Part(classes, Lower);
    var a1 := a0 + Part(classes, Upper);
    var a2 := a1 + Part(classes, Digit);
    var a3 := a2 + Part(classes, Punct);
    var c0: set<CharClass> := if Lower in classes then {Lower} else {};
    var c1 := c0 + (if Upper in classes then {Upper} else {});
    var c2 := c1 + (if Digit in classes then {Digit} else {});
    if Lower in classes {
      ClassAlphabetShape(Lower);
      forall c | c in a0 ensures exists j :: j in c0 && InClass(c, j) {
        ClassAlphabetMembership(c, Lower);
      }
    }
    if Upper in classes { AppendClass(a0, c0, Upper); } else { SkipClass(a0, c0); }
    if Digit in classes { AppendClass(a1, c1, Digit); } else { SkipClass(a1, c1); }
    if Punct in classes { AppendClass(a2, c2, Punct); } else { SkipClass(a2, c2); }
    assert a3 == Alphabet(classes);
  }

  lemma PartMembership(classes: set<CharClass>, k: CharClass, c: char)
    ensures c in Part(classes, k) <==> k in classes && InClass(c, k)
  {
    if k in classes {
      ClassAlphabetMembership(c, k);
    }
  }

  lemma ConcatMembership(a0: string, a1: string, a2: string, a3: string, c: char)
    ensures c in a0 + a1 + a2 + a3 <==> c in a0 || c in a1 || c in a2 || c in a3
  {
  }

  /** A character is in the alphabet exactly when it belongs to one of the
      classes. */
  lemma AlphabetMembership(classes: set<CharClass>, c: char)
    ensures c in Alphabet(classes) <==> exists k :: k in classes && InClass(c, k)
  {
    ConcatMembership(Part(classes, Lower), Part(classes, Upper),
      Part(classes, Digit), Part(classes, Punct), c);
    PartMembership(classes, Lower, c);
    PartMembership(classes, Upper, c);
    PartMembership(classes, Digit, c);
    PartMembership(classes, Punct, c);
    if exists k :: k in classes && InClass(c, k) {
      var k :| k in classes && InClass(c, k);
      assert c in Part(classes, k);
    }
  }

  /** The pool is the size of the alphabet spanned by the present classes,
      that alphabet repeats no character, and it holds exactly the characters
      of those classes. */
  lemma PoolIsAlphabetSize(classes: set<CharClass>)
    ensures |Alphabet(classes)| == PoolSize(classes)
    ensures NoDuplicates(Alphabet(classes))
    ensures forall c :: c in Alphabet(classes) <==> exists k :: k in classes && InClass(c, k)
  {
    TableShapes();
    AlphabetNoDuplicates(classes);
    forall c ensures c in Alphabet(classes) <==> exists k :: k in classes && InClass(c, k) {
      AlphabetMembership(classes, c);
    }
  }

  /** The pool is one of the subset sums of 26, 26, 10 and 32, at most 94,
      and zero exactly when no class is present. */
  lemma PoolSizeValues(classes: set<CharClass>)
    ensures PoolSize(classes) in {0, 10, 26, 32, 36, 42, 52, 58, 62, 68, 84, 94}
    ensures PoolSize(classes) <= 94
    ensures PoolSize(classes) == 0 <==> classes == {}
  {
    TableShapes();
    if classes != {} {
      var k :| k in classes;
      assert PoolSize(classes) >= ClassPool(k);
    }
  }

  // ---------------------------------------------------------------------------
  // Rounding and truncation
  // ---------------------------------------------------------------------------

  /** The integer nearest to `x`, ties going to the even neighbour (Python's
      `round` with no digits). */
  function RoundHalfEven(x: real): (n: int)
    ensures n as real - 0.5 <= x <= n as real + 0.5
    ensures (x == n as real - 0.5 || x == n as real + 0.5) ==> n % 2 == 0
  {
    var f := x.Floor;
    var d := x - f as real;
    if d < 0.5 then f
    else if d > 0.5 then f + 1
    else if f % 2 == 0 then f
    else f + 1
  }

  lemma RoundHalfEvenMonotone(x: real, y: real)
    requires x <= y
    ensures RoundHalfEven(x) <= RoundHalfEven(y)
  {
  }

  /** `round(x, 2)`: the nearest multiple of 0.01, ties to the even
      hundredth. */
  function Round2(x: real): (r: real)
    ensures (r * 100.0).Floor as real == r * 100.0
    ensures r - 0.005 <= x <= r + 0.005
    ensures (x == r - 0.005 || x == r + 0.005) ==> (r * 100.0).Floor % 2 == 0
  {
    var n := RoundHalfEven(x * 100.0);
    var r := n as real / 100.0;
    assert r * 100.0 == n as real;
    assert (n as real).Floor == n;
    assert x == r - 0.005 || x == r + 0.005 ==>
      x * 100.0 == n as real - 0.5 || x * 100.0 == n as real + 0.5;
    r
  }

  lemma Round2Monotone(x: real, y: real)
    requires x <= y
    ensures Round2(x) <= Round2(y)
  {
    RoundHalfEvenMonotone(x * 100.0, y * 100.0);
  }

  lemma Round2NonNegative(x: real)
    requires x >= 0.0
    ensures Round2(x) >= 0.0
  {
    Round2Monotone(0.0, x);
  }

  /** `int(x)` on a float: drop the fraction, toward zero. */
  function Trunc(x: real): (n: int)
    ensures x >= 0.0 ==> n as real <= x < n as real + 1.0
    ensures x < 0.0 ==> n as real - 1.0 < x <= n as real
  {
    if x >= 0.0 then x.Floor else -((-x).Floor)
  }

  lemma TruncMonotone(x: real, y: real)
    requires x <= y
    ensures Trunc(x) <= Trunc(y)
  {}

  // ---------------------------------------------------------------------------
  // Entropy
  // ---------------------------------------------------------------------------

  /** A stand-in for `math.log2` that is non-negative from 1 on, as the real
      logarithm is. */
  ghost predicate NonNegativeFromOne(log2: real -> real) {
    forall x :: x >= 1.0 ==> log2(x) >= 0.0
  }

  /** `len(password) * math.log2(pool)`, before rounding. */
  function ExactEntropy(length: nat, classes: set<CharClass>, log2: real -> real): real {
    length as real * log2(PoolSize(classes) as real)
  }

  /** The entropy of a password of `length` characters whose classes are
      `classes`. */
  function EntropyOf(length: nat, classes: set<CharClass>, log2: real -> real): real {
    if classes == {} then 0.0 else Round2(ExactEntropy(length, classes, log2))
  }

  function Entropy(password: string, log2: real -> real): real {
    EntropyOf(|password|, ClassesPresent(password), log2)
  }

  /** `calculate_entropy`: builds the pool class by class, returns 0.0 for an
      empty pool and otherwise `len * log2(pool)` rounded to two decimals. */
  method CalculateEntropy(password: string, log2: real -> real) returns (entropy: real)
    ensures entropy == Entropy(password, log2)
    ensures ClassesPresent(password) == {} ==> entropy == 0.0
    ensures ClassesPresent(password) != {} ==>
      var exact := ExactEntropy(|password|, ClassesPresent(password), log2);
      exact - 0.005 <= entropy <= exact + 0.005
  {
    var pool := 0;
    if HasClass(password, Lower) {
      pool := pool + 26;
    }
    if HasClass(password, Upper) {
      pool := pool + 26;
    }
    if HasClass(password, Digit) {
      pool := pool + 10;
    }
    if HasClass(password, Punct) {
      pool := pool + |Punctuation|;
    }
    ghost var classes := ClassesPresent(password);
    assert pool == PoolSize(classes);
    PoolSizeValues(classes);
    if pool == 0 {
      return 0.0;
    }
    assert pool as real == PoolSize(classes) as real;
    assert |password| as real * log2(pool as real) == ExactEntropy(|password|, classes, log2);
    entropy := Round2(|password| as real * log2(pool as real));
  }

  /** Entropy sees only the length and the set of classes present. */
  lemma EntropyDependsOnlyOnShape(p: string, q: string, log2: real -> real)
    requires |p| == |q| && ClassesPresent(p) == ClassesPresent(q)
    ensures Entropy(p, log2) == Entropy(q, log2)
  {}

  lemma EntropyOfEmpty(log2: real -> real)
    ensures Entropy("", log2) == 0.0
  {
    assert ClassesPresent("") == {};
  }

  /** A password with characters from no class, such as pure whitespace, has
      entropy exactly 0.0. */
  lemma EntropyWithoutClasses(password: string, log2: real -> real)
    requires forall i, k :: 0 <= i < |password| ==> !InClass(password[i], k)
    ensures Entropy(password, log2) == 0.0
  {
    assert ClassesPresent(password) == {};
  }

  lemma ScaleMonotone(a: real, b: real, c: real)
    requires a <= b && c >= 0.0
    ensures a * c <= b * c
  {
    assert b * c - a * c == (b - a) * c;
  }

  lemma ExactEntropyMonotone(n1: nat, n2: nat, classes: set<CharClass>, log2: real -> real)
    requires NonNegativeFromOne(log2)
    requires classes != {} && n1 <= n2
    ensures 0.0 <= ExactEntropy(n1, classes, log2) <= ExactEntropy(n2, classes, log2)
  {
    var l := log2(PoolSize(classes) as real);
    PoolSizeValues(classes);
    assert l >= 0.0;
    ScaleMonotone(0.0, n1 as real, l);
    ScaleMonotone(n1 as real, n2 as real, l);
  }

  lemma EntropyNonNegative(length: nat, classes: set<CharClass>, log2: real -> real)
    requires NonNegativeFromOne(log2)
    ensures EntropyOf(length, classes, log2) >= 0.0
  {
    if classes != {} {
      ExactEntropyMonotone(length, length, classes, log2);
      Round2NonNegative(ExactEntropy(length, classes, log2));
    }
  }

  lemma ScaleStrict(a: real, b: real, c: real)
    requires a < b && c > 0.0
    ensures a * c < b * c
  {
    assert b * c - a * c == (b - a) * c;
  }

  /** For a fixed class set, a longer password never has lower entropy. */
  lemma EntropyMonotoneInLength(n1: nat, n2: nat, classes: set<CharClass>, log2: real -> real)
    requires NonNegativeFromOne(log2)
    requires n1 <= n2
    ensures EntropyOf(n1, classes, log2) <= EntropyOf(n2, classes, log2)
  {
    if classes != {} {
      ExactEntropyMonotone(n1, n2, classes, log2);
      Round2Monotone(ExactEntropy(n1, classes, log2), ExactEntropy(n2, classes, log2));
    }
  }

  /** Eight lower-case letters: pool 26, entropy `round(8 * log2(26), 2)`. */
  lemma EntropyOfEightLowercase(log2: real -> real)
    ensures Entropy("aaaaaaaa", log2) == Round2(8.0 * log2(26.0))
  {
    var p := "aaaaaaaa";
    assert InClass(p[0], Lower);
    assert !HasClass(p, Upper) && !HasClass(p, Digit);
    assert !HasClass(p, Punct) by {
      forall i | 0 <= i < |p| ensures !InClass(p[i], Punct) {
        assert p[i] == 'a';
      }
    }
    assert ClassesPresent(p) == {Lower};
  }

  // ---------------------------------------------------------------------------
  // Score
  // ---------------------------------------------------------------------------

  /** `score_from_entropy`: `int(1.5 * entropy)` capped at 100. */
  function ScoreFromEntropy(entropy: real): (score: int)
    ensures score <= 100
    ensures entropy >= 0.0 ==> 0 <= score
    ensures score == 100 <==> entropy * 1.5 >= 100.0
    ensures entropy >= 0.0 && score < 100 ==>
      score as real <= entropy * 1.5 < score as real + 1.0
  {
    var raw := Trunc(entropy * 1.5);
    if raw < 100 then raw else 100
  }

  lemma ScoreMonotone(e1: real, e2: real)
    requires e1 <= e2
    ensures ScoreFromEntropy(e1) <= ScoreFromEntropy(e2)
  {
    TruncMonotone(e1 * 1.5, e2 * 1.5);
  }

  // ---------------------------------------------------------------------------
  // Crack time
  // ---------------------------------------------------------------------------

  const GuessesPerSecond: real := 1000000000.0

  /** A rung of the ladder converts to the next unit by dividing by its
      limit; the last rung has none. */
  datatype Limit = Divisor(n: nat) | NoLimit

  const Units: seq<(string, Limit)> := [
    ("seconds", Divisor(60)),
    ("minutes", Divisor(60)),
    ("hours", Divisor(24)),
    ("days", Divisor(365)),
    ("years", Divisor(100)),
    ("centuries", NoLimit)
  ]

  const LastUnit: nat := |Units| - 1

  /** The product of the first `k` limits of the ladder: how many seconds one
      unit `k` is. */
  function Prefix(k: nat): (p: real)
    requires k <= LastUnit
    ensures p >= 1.0
  {
    if k == 0 then 1.0 else Prefix(k - 1) * Units[k - 1].1.n as real
  }

  lemma PrefixValues()
    ensures Prefix(1) == 60.0 && Prefix(2) == 3600.0 && Prefix(3) == 86400.0
    ensures Prefix(4) == 31536000.0 && Prefix(5) == 3153600000.0
  {}

  lemma {:induction false} PrefixIncreasing(j: nat, k: nat)
    requires j < k <= LastUnit
    ensures Prefix(j) < Prefix(k)
    decreases k - j
  {
    if j + 1 < k {
      PrefixIncreasing(j + 1, k);
    }
  }

  /** The first rung from `k` on at which `seconds` fits under the next
      rung's size. */
  function FirstFit(seconds: real, k: nat): (u: nat)
    requires k <= LastUnit
    ensures k <= u <= LastUnit
    ensures u < LastUnit ==> seconds < Prefix(u + 1)
    ensures forall j :: k < j <= u ==> seconds >= Prefix(j)
    decreases LastUnit - k
  {
    if k == LastUnit || seconds < Prefix(k + 1) then k
    else FirstFit(seconds, k + 1)
  }

  /** The unit the ladder settles on. */
  function UnitIndex(seconds: real): nat {
    FirstFit(seconds, 0)
  }

  /** A crack-time estimate: a truncated amount in a named unit. */
  datatype CrackTime = CrackTime(amount: int, unit: string)

  /** The estimate for a number of seconds: the settled unit, and the seconds
      expressed in that unit and truncated. */
  function Ladder(seconds: real): CrackTime {
    var k := UnitIndex(seconds);
    CrackTime(Trunc(seconds / Prefix(k)), Units[k].0)
  }

  /** The f-string `"<amount> <unit>"`. */
  function Render(t: CrackTime): string {
    IntToString(t.amount) + " " + t.unit
  }

  /** Every rung but the last has a positive limit, and one unit of the next
      rung is that many units of this one. */
  lemma Rung(i: nat)
    requires i <= LastUnit
    ensures Units[i].1.NoLimit? <==> i == LastUnit
    ensures i < LastUnit ==>
      Units[i].1.n > 0 && Prefix(i + 1) == Prefix(i) * Units[i].1.n as real
  {
    if i == 0 {} else if i == 1 {} else if i == 2 {} else if i == 3 {} else if i == 4 {}
  }

  /** Comparing the value in unit `i` with the limit is comparing the seconds
      with one unit `i + 1`, and dividing by the limit gives the value in
      unit `i + 1`. */
  lemma LadderStep(seconds: real, i: nat)
    requires i < LastUnit
    ensures Units[i].1.Divisor? && Units[i].1.n > 0
    ensures seconds / Prefix(i) < Units[i].1.n as real <==> seconds < Prefix(i + 1)
    ensures seconds / Prefix(i) / Units[i].1.n as real == seconds / Prefix(i + 1)
  {
    Rung(i);
    DivideInSteps(seconds, Prefix(i), Units[i].1.n as real);
  }

  /** Dividing by `p` and then by `d` is dividing by `p * d`, and the first
      quotient is under `d` exactly when `x` is under `p * d`. */
  lemma DivideInSteps(x: real, p: real, d: real)
    requires p > 0.0 && d > 0.0
    ensures x / p < d <==> x < p * d
    ensures x / p / d == x / (p * d)
  {
    var v := x / p;
    assert v * p == x;
    if v < d {
      ScaleStrict(v, d, p);
    } else {
      ScaleMonotone(d, v, p);
    }
  }

  /** `crack_time_from_entropy`: `2 ** entropy / 1e9` seconds, divided up the
      ladder while it is at least the current limit, rendered once it fits. */
  method CrackTimeFromEntropy(entropy: real, pow2: real -> real) returns (s: string)
    ensures s == Render(Ladder(pow2(entropy) / GuessesPerSecond))
    ensures s != "infinite"
  {
    var totalGuesses := pow2(entropy);
    var seconds := totalGuesses / GuessesPerSecond;
    var value := seconds;
    var i := 0;
    while i < |Units|
      invariant 0 <= i <= LastUnit
      invariant value == seconds / Prefix(i)
      invariant UnitIndex(seconds) == FirstFit(seconds, i)
    {
      var (name, limit) := Units[i];
      Rung(i);
      if i < LastUnit {
        LadderStep(seconds, i);
      }
      if limit.NoLimit? || value < limit.n as real {
        s := Render(CrackTime(Trunc(value), name));
        RenderNeverInfinite(CrackTime(Trunc(value), name));
        return;
      }
      value := value / limit.n as real;
      i := i + 1;
    }
    assert false;
    s := "infinite";
  }

  /** A rendered estimate always has a space in it, so it is never the
      string "infinite". */
  lemma RenderNeverInfinite(t: CrackTime)
    ensures Render(t) != "infinite"
  {
    var s := Render(t);
    var n := |IntToString(t.amount)|;
    assert s[n] == ' ';
    assert ' ' !in "infinite";
  }

  /** The ladder settles on unit `k` exactly when the seconds are at least
      one unit `k` (for every unit but the first) and less than one unit
      `k + 1` (for every unit but the last). */
  lemma UnitIndexIff(seconds: real, k: nat)
    requires k <= LastUnit
    ensures UnitIndex(seconds) == k <==>
      (k == 0 || seconds >= Prefix(k)) && (k == LastUnit || seconds < Prefix(k + 1))
  {
    var u := UnitIndex(seconds);
    if u < k {
      if u + 1 < k {
        PrefixIncreasing(u + 1, k);
      }
    } else if k < u {
      assert seconds >= Prefix(k + 1);
    }
  }

  /** Once settled below the last unit, the amount is under that unit's
      limit, and at least 1 beyond the first unit. */
  lemma AmountWithinLimit(seconds: real)
    requires seconds >= 0.0
    ensures var k := UnitIndex(seconds);
      k < LastUnit ==> 0 <= Ladder(seconds).amount < Units[k].1.n
    ensures UnitIndex(seconds) > 0 ==> Ladder(seconds).amount >= 1
  {
    var k := UnitIndex(seconds);
    QuotientBounds(seconds, Prefix(k));
    if k < LastUnit {
      LadderStep(seconds, k);
    }
  }

  lemma QuotientBounds(x: real, p: real)
    requires p > 0.0
    ensures x >= 0.0 ==> x / p >= 0.0
    ensures x >= p ==> x / p >= 1.0
  {
    var v := x / p;
    assert v * p == x;
    if v < 0.0 {
      ScaleStrict(v, 0.0, p);
    }
    if v < 1.0 {
      ScaleStrict(v, 1.0, p);
    }
  }

  /** Anything under a minute stays in seconds. */
  lemma UnderAMinuteIsSeconds(seconds: real)
    requires seconds < 60.0
    ensures Ladder(seconds) == CrackTime(Trunc(seconds), "seconds")
  {}

  /** Exactly 60 seconds is converted: "1 minutes". */
  lemma ExactlyAMinute()
    ensures Render(Ladder(60.0)) == "1 minutes"
  {
    assert UnitIndex(60.0) == 1;
    assert Ladder(60.0) == CrackTime(1, "minutes");
    assert IntToString(1) == "1";
  }

  /** Entropy 0: one guess, a billionth of a second, "0 seconds". */
  lemma ZeroEntropy(pow2: real -> real)
    requires pow2(0.0) == 1.0
    ensures Render(Ladder(pow2(0.0) / GuessesPerSecond)) == "0 seconds"
  {
    var seconds := pow2(0.0) / GuessesPerSecond;
    assert seconds < 1.0;
    assert Ladder(seconds) == CrackTime(0, "seconds");
    assert IntToString(0) == "0";
  }

  /** Entropy 40: 2^40 guesses, 1099.511627776 seconds, "18 minutes". */
  lemma FortyBits(pow2: real -> real)
    requires pow2(40.0) == 1099511627776.0
    ensures Render(Ladder(pow2(40.0) / GuessesPerSecond)) == "18 minutes"
  {
    var seconds := pow2(40.0) / GuessesPerSecond;
    assert seconds == 1099.511627776;
    assert Prefix(1) == 60.0 && Prefix(2) == 3600.0;
    assert UnitIndex(seconds) == 1;
    var minutes := seconds / 60.0;
    assert 18.0 <= minutes < 19.0;
    assert Ladder(seconds) == CrackTime(Trunc(minutes), "minutes");
    assert Trunc(minutes) == 18;
    assert NatToString(1) == "1";
    assert NatToString(18) == NatToString(1) + [DigitChar(8)];
  }

  /** The last unit takes every remaining value, however large. */
  lemma CenturiesIsUnbounded(seconds: real)
    requires seconds >= Prefix(LastUnit)
    ensures Ladder(seconds).unit == "centuries"
  {
    UnitIndexIff(seconds, LastUnit);
  }
}
