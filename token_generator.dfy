/** The token generator: a comma-separated list of character-set names is
    resolved against a fixed table into one sampling pool, and the token is
    drawn from that pool one character at a time. The secure random source is
    supplied by the caller as an index oracle. */
module TokenGenerator {
  import opened Ascii
  import opened PyStr

  /** `CHARSETS`: the fixed table of named character sets. */
  function Charsets(): map<string, string> {
    map[
      "letters" := Letters,
      "digits" := Digits,
      "specials" := Punctuation
    ]
  }

  /** The two `ValueError`s that `generate_token` raises. */
  datatype TokenError = InvalidCharset | EmptyCharset

  datatype Result<T> = Success(value: T) | Failure(error: TokenError)

  /** The random source: `choose(k, n)` is the index, below `n`, that the
      `k`-th draw from a pool of `n` characters picks. */
  ghost predicate IsIndexOracle(choose: (nat, nat) -> nat) {
    forall k, n :: 0 < n ==> choose(k, n) < n
  }

  /** Each part stripped, in order. */
  function StripAll(parts: seq<string>): (names: seq<string>)
    ensures |names| == |parts|
    ensures forall i :: 0 <= i < |parts| ==> names[i] == Strip(parts[i])
  {
    if parts == [] then [] else [Strip(parts[0])] + StripAll(parts[1..])
  }

  /** The names a key lists: its comma-separated parts, each stripped. */
  function Names(key: string): (names: seq<string>)
    ensures |names| == |Split(key, ',')| >= 1
    ensures forall i :: 0 <= i < |names| ==> names[i] == Strip(Split(key, ',')[i])
  {
    StripAll(Split(key, ','))
  }

  /** Every name is a key of `table` (the proofs below take the table as a
      parameter and use only the facts they state about it). */
  predicate AllKnown(table: map<string, string>, names: seq<string>) {
    forall i :: 0 <= i < |names| ==> names[i] in table
  }

  /** The pool for known names: their table entries, in order. */
  function PoolOf(table: map<string, string>, names: seq<string>): string
    requires AllKnown(table, names)
  {
    if names == [] then "" else table[names[0]] + PoolOf(table, names[1..])
  }

  /** The resolution step of `generate_token` once the key has been split
      into names: the entries of the names concatenated in order, or the
      error it raises. */
  function Resolve(table: map<string, string>, names: seq<string>): (r: Result<string>)
    ensures r.Success? ==> r.value != ""
  {
    if !AllKnown(table, names) then Failure(InvalidCharset)
    else if PoolOf(table, names) == "" then Failure(EmptyCharset)
    else Success(PoolOf(table, names))
  }

  /** The token the draws pick from `pool`: `count` characters, the `k`-th at
      index `choose(k, |pool|)`. */
  function Draws(pool: string, choose: (nat, nat) -> nat, count: nat): (token: string)
    requires IsIndexOracle(choose) && pool != ""
    ensures |token| == count
    ensures forall k :: 0 <= k < count ==> token[k] == pool[choose(k, |pool|)]
  {
    if count == 0 then "" else Draws(pool, choose, count - 1) + [pool[choose(count - 1, |pool|)]]
  }

  /** The pool of a concatenation of name lists is the concatenation of
      their pools: entries are kept in order, repeats included. */
  lemma {:induction false} PoolOfAppend(table: map<string, string>, a: seq<string>, b: seq<string>)
    requires AllKnown(table, a) && AllKnown(table, b)
    ensures AllKnown(table, a + b)
    ensures PoolOf(table, a + b) == PoolOf(table, a) + PoolOf(table, b)
    decreases |a|
  {
    if a == [] {
      assert a + b == b;
    } else {
      var rest := a[1..];
      assert AllKnown(table, rest);
      PoolOfAppend(table, rest, b);
      var ab := a + b;
      assert ab[0] == a[0] && ab[1..] == rest + b;
      assert PoolOf(table, ab) == table[a[0]] + (PoolOf(table, rest) + PoolOf(table, b));
      assert PoolOf(table, a) == table[a[0]] + PoolOf(table, rest);
    }
  }

  /** One more known name extends the pool by its entry. */
  lemma PoolOfStep(table: map<string, string>, names: seq<string>, i: nat)
    requires i < |names| && AllKnown(table, names[..i]) && names[i] in table
    ensures AllKnown(table, names[..i + 1])
    ensures PoolOf(table, names[..i + 1]) == PoolOf(table, names[..i]) + table[names[i]]
  {
    PoolOfAppend(table, names[..i], [names[i]]);
    assert names[..i + 1] == names[..i] + [names[i]];
    assert [names[i]][1..] == [];
  }

  /** The first half of `generate_token`: strip and look up every part of
      the split key in turn, failing on the first unknown name, then fail on
      an empty pool. */
  method ResolvePool(table: map<string, string>, parts: seq<string>) returns (r: Result<string>)
    ensures r == Resolve(table, StripAll(parts))
  {
    ghost var names := StripAll(parts);
    var charset := "";
    var i := 0;
    while i < |parts|
      invariant 0 <= i <= |parts|
      invariant AllKnown(table, names[..i])
      invariant charset == PoolOf(table, names[..i])
    {
      var part := Strip(parts[i]);
      assert part == names[i];
      if part !in table {
        return Failure(InvalidCharset);
      }
      PoolOfStep(table, names, i);
      charset := charset + table[part];
      i := i + 1;
    }
    assert names[..i] == names;
    if charset == "" {
      return Failure(EmptyCharset);
    }
    return Success(charset);
  }

  /** The second half of `generate_token`: `length` draws from the pool
      (none when `length` is not positive). */
  method DrawToken(pool: string, length: int, choose: (nat, nat) -> nat) returns (token: string)
    requires IsIndexOracle(choose) && pool != ""
    ensures token == Draws(pool, choose, if length > 0 then length else 0)
  {
    token := "";
    var k := 0;
    while k < length
      invariant 0 <= k && (k <= length || k == 0)
      invariant token == Draws(pool, choose, k)
    {
      var j := choose(k, |pool|);
      token := token + [pool[j]];
      k := k + 1;
    }
  }

  /** What `generate_token` returns with table `table` for the names of its
      key: the resolution error, or `length` draws from the resolved pool
      (none when `length` is not positive). */
  function Generate(table: map<string, string>, length: int, names: seq<string>,
                    choose: (nat, nat) -> nat): Result<string>
    requires IsIndexOracle(choose)
  {
    match Resolve(table, names)
    case Failure(e) => Failure(e)
    case Success(pool) => Success(Draws(pool, choose, if length > 0 then length else 0))
  }

  /** `generate_token`: the pool is resolved against `Charsets()` before
      anything is drawn, then the characters are drawn. */
  method GenerateToken(length: int, charsetKey: string, choose: (nat, nat) -> nat)
    returns (r: Result<string>)
    requires IsIndexOracle(choose)
    ensures r == Generate(Charsets(), length, Names(charsetKey), choose)
  {
    var pool := ResolvePool(Charsets(), Split(charsetKey, ','));
    if pool.Failure? {
      return Failure(pool.error);
    }
    var token := DrawToken(pool.value, length, choose);
    return Success(token);
  }

  /** An invalid key yields its resolution error and no token; on success the
      token has `length` characters (none for a non-positive `length`), the
      `k`-th drawn at the oracle's `k`-th index into the resolved pool. */
  lemma GenerateOutcome(table: map<string, string>, length: int, names: seq<string>,
                        choose: (nat, nat) -> nat)
    requires IsIndexOracle(choose)
    ensures var r := Generate(table, length, names, choose);
      && (r.Failure? <==> Resolve(table, names).Failure?)
      && (r.Failure? ==> r == Resolve(table, names))
      && (r.Success? ==>
        var pool := Resolve(table, names).value;
        && |r.value| == (if length > 0 then length else 0)
        && forall k :: 0 <= k < |r.value| ==> r.value[k] == pool[choose(k, |pool|)])
  {
  }

  /** The table holds exactly three names; every entry is non-empty and
      repeats no character. */
  lemma CharsetsTable()
    ensures Charsets().Keys == {"letters", "digits", "specials"}
    ensures Charsets()["letters"] == Letters && |Letters| == 52
    ensures Charsets()["digits"] == Digits && |Digits| == 10
    ensures Charsets()["specials"] == Punctuation && |Punctuation| == 32
    ensures forall name :: name in Charsets() ==>
      Charsets()[name] != "" && NoDuplicates(Charsets()[name])
  {
    TableShapes();
  }

  /** Each entry holds what its name says. */
  lemma CharsetsContents(c: char)
    ensures c in Letters <==> IsLower(c) || IsUpper(c)
    ensures c in Digits <==> IsDigit(c)
  {
    LowercaseMembership(c);
    UppercaseMembership(c);
    DigitsMembership(c);
  }

  /** Every entry of `table` has between 10 and 52 characters. */
  predicate EntriesSized(table: map<string, string>) {
    forall name :: name in table ==> 10 <= |table[name]| <= 52
  }

  lemma CharsetsSized()
    ensures EntriesSized(Charsets())
  {
    CharsetsTable();
  }

  /** The pool is at least 10 characters per name and at most 52. */
  lemma {:induction false} PoolOfLength(table: map<string, string>, names: seq<string>)
    requires AllKnown(table, names) && EntriesSized(table)
    ensures 10 * |names| <= |PoolOf(table, names)| <= 52 * |names|
    decreases |names|
  {
    if names != [] {
      PoolOfLength(table, names[1..]);
    }
  }

  /** A character is in the pool exactly when it is in the entry of one of
      the names. */
  lemma {:induction false} PoolOfMembership(table: map<string, string>, names: seq<string>, c: char)
    requires AllKnown(table, names)
    ensures c in PoolOf(table, names) <==>
      exists i :: 0 <= i < |names| && c in table[names[i]]
    decreases |names|
  {
    if names != [] {
      PoolOfMembership(table, names[1..], c);
      if c in table[names[0]] {
        assert 0 < |names|;
      }
      if exists i :: 0 <= i < |names| && c in table[names[i]] {
        var i :| 0 <= i < |names| && c in table[names[i]];
        if i > 0 {
          assert c in table[names[1..][i - 1]];
        }
      }
    }
  }

  /** Resolution fails exactly when some name is not in the table (the
      names are the stripped parts of the key, by the contract of `Names`),
      and then always with `InvalidCharset`: with entries of at least 10
      characters a successful resolution has a pool of at least 10, so
      `EmptyCharset` is never raised when there is a name at all. */
  lemma ResolveOutcome(table: map<string, string>, names: seq<string>)
    requires EntriesSized(table) && |names| >= 1
    ensures Resolve(table, names).Failure? <==> exists i :: 0 <= i < |names| && names[i] !in table
    ensures Resolve(table, names) != Failure(EmptyCharset)
    ensures Resolve(table, names).Success? ==>
      Resolve(table, names).value == PoolOf(table, names) && |Resolve(table, names).value| >= 10
  {
    if AllKnown(table, names) {
      PoolOfLength(table, names);
    }
  }

  /** With `CHARSETS` itself, `EmptyCharset` cannot happen, since a key
      always splits into at least one name. */
  lemma NeverEmptyCharset(key: string)
    ensures Resolve(Charsets(), Names(key)) != Failure(EmptyCharset)
  {
    CharsetsSized();
    ResolveOutcome(Charsets(), Names(key));
  }

  /** On success every token character is a character of the entry of one of
      the listed names. */
  lemma TokenFromPool(table: map<string, string>, names: seq<string>, choose: (nat, nat) -> nat,
                      count: nat, k: nat)
    requires IsIndexOracle(choose)
    requires Resolve(table, names).Success?
    requires k < count
    ensures var token := Draws(Resolve(table, names).value, choose, count);
      exists i :: 0 <= i < |names| && token[k] in table[names[i]]
  {
    var pool := Resolve(table, names).value;
    var c := Draws(pool, choose, count)[k];
    assert c in pool;
    PoolOfMembership(table, names, c);
  }

  /** The key "" splits into one empty name, which is not in the table. */
  lemma EmptyKeyIsInvalid()
    ensures Names("") == [""]
    ensures Resolve(Charsets(), Names("")) == Failure(InvalidCharset)
  {
    assert Names("") == [""];
    assert "" !in Charsets();
  }

  /** A trimmed part strips to itself. */
  lemma StripTrimmed(names: seq<string>)
    requires forall i :: 0 <= i < |names| ==> Trimmed(names[i])
    ensures StripAll(names) == names
  {
    forall i | 0 <= i < |names| ensures Strip(names[i]) == names[i] {
      StripTrimmedString(names[i]);
    }
  }

  /** Names without commas or surrounding whitespace, joined by commas, form
      a key that lists exactly those names. */
  lemma JoinedNames(names: seq<string>)
    requires |names| >= 1
    requires forall i :: 0 <= i < |names| ==> Trimmed(names[i]) && ',' !in names[i]
    ensures Names(Join(names, ',')) == names
  {
    SplitJoin(names, ',');
    StripTrimmed(names);
  }

  /** One part of a key: a name with whitespace on either side strips to
      the name, and the name has no comma when the part has none. */
  lemma PaddedPart(part: string, pre: string, name: string, post: string)
    requires part == pre + name + post
    requires AllSpace(pre) && AllSpace(post) && Trimmed(name) && ',' !in part
    ensures Strip(part) == name && ',' !in name
  {
    StripPadded(pre, name, post);
    forall j | 0 <= j < |name| ensures name[j] != ',' {
      assert part[|pre| + j] == name[j];
    }
  }

  /** Spaces around the names change nothing: a key whose parts are the names
      with whitespace on either side lists the same names as the plainly
      joined key. */
  lemma SpacesAroundNamesIgnored(parts: seq<string>, pre: seq<string>, names: seq<string>,
                                 post: seq<string>)
    requires |names| >= 1 && |parts| == |pre| == |names| == |post|
    requires forall i :: 0 <= i < |names| ==> parts[i] == pre[i] + names[i] + post[i]
    requires forall i :: 0 <= i < |names| ==>
      AllSpace(pre[i]) && AllSpace(post[i]) && Trimmed(names[i])
    requires forall i :: 0 <= i < |names| ==> ',' !in parts[i]
    ensures Names(Join(parts, ',')) == names
    ensures Names(Join(parts, ',')) == Names(Join(names, ','))
  {
    forall i | 0 <= i < |parts| ensures Strip(parts[i]) == names[i] && ',' !in names[i] {
      PaddedPart(parts[i], pre[i], names[i], post[i]);
    }
    SplitJoin(parts, ',');
    assert StripAll(parts) == names;
    JoinedNames(names);
  }

  /** Naming an entry twice puts it in the pool twice: nothing is
      deduplicated. */
  lemma RepeatedNameKept(table: map<string, string>, name: string)
    requires name in table && table[name] != ""
    ensures Resolve(table, [name, name]) == Success(table[name] + table[name])
    ensures |Resolve(table, [name, name]).value| == 2 * |table[name]|
  {
    var names := [name, name];
    assert names[1..] == [name];
    assert [name][1..] == [];
    assert PoolOf(table, [name]) == table[name] + "";
    assert table[name] + "" == table[name];
    assert PoolOf(table, names) == table[name] + table[name];
  }

  /** The names of the table are themselves valid parts of a key. */
  lemma CharsetNamesUsable()
    ensures forall name :: name in Charsets() ==> Trimmed(name) && ',' !in name
  {
    CharsetsTable();
  }

  /** " digits , letters " lists the same names as "digits,letters". */
  lemma SpacedKeyExample()
    ensures Names(" digits , letters ") == ["digits", "letters"]
    ensures Names("digits,letters") == ["digits", "letters"]
  {
    var names := ["digits", "letters"];
    var pad := [" ", " "];
    var parts := [" digits ", " letters "];
    assert Join(parts, ',') == " digits , letters ";
    assert Join(names, ',') == "digits,letters";
    assert AllSpace(" ");
    assert Trimmed("digits") && Trimmed("letters");
    assert " " + "digits" + " " == " digits ";
    assert " " + "letters" + " " == " letters ";
    SpacesAroundNamesIgnored(parts, pad, names, pad);
  }

  /** "digits,digits" resolves to the digits twice, 20 characters. */
  lemma RepeatedKeyExample()
    ensures Resolve(Charsets(), Names("digits,digits")) == Success(Digits + Digits)
    ensures |Digits + Digits| == 20
  {
    var names := ["digits", "digits"];
    assert Join(names, ',') == "digits,digits";
    assert Trimmed("digits");
    JoinedNames(names);
    CharsetsTable();
    RepeatedNameKept(Charsets(), "digits");
  }
}
