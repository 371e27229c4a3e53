/** The version ordering of the catalog page: `b.localeCompare(a, undefined,
    {numeric: true})` used as a sort comparator, which sorts version keys
    newest first. The collation is simplified to a natural order: a run of
    decimal digits compares by its numeric value, a digit run sorts before any
    other character, and other characters compare by code point. */
module NaturalOrder {
  import opened Strings

  datatype Token = Number(value: nat) | Symbol(c: char)

  /** A string cut into digit runs (read as numbers) and single characters. */
  function Tokens(s: string): seq<Token>
    decreases |s|
  {
    if s == [] then []
    else if IsDigit(s[0]) then
      var n := LeadingDigits(s);
      [Number(ParseDecimal(s[..n]))] + Tokens(s[n..])
    else [Symbol(s[0])] + Tokens(s[1..])
  }

  predicate TokenLess(a: Token, b: Token) {
    match (a, b)
    case (Number(x), Number(y)) => x < y
    case (Number(_), Symbol(_)) => true
    case (Symbol(_), Number(_)) => false
    case (Symbol(c), Symbol(d)) => c < d
  }

  /** Lexicographic order on token sequences; a proper prefix comes first. */
  predicate LexLess(a: seq<Token>, b: seq<Token>)
    decreases |a|
  {
    if |b| == 0 then false
    else if |a| == 0 then true
    else if a[0] != b[0] then TokenLess(a[0], b[0])
    else LexLess(a[1..], b[1..])
  }

  /** `x.localeCompare(y, undefined, {numeric: true}) < 0` */
  predicate Less(x: string, y: string) {
    LexLess(Tokens(x), Tokens(y))
  }

  lemma {:induction false} LexIrreflexive(a: seq<Token>)
    ensures !LexLess(a, a)
    decreases |a|
  {
    if |a| > 0 {
      LexIrreflexive(a[1..]);
    }
  }

  lemma {:induction false} LexTransitive(a: seq<Token>, b: seq<Token>, c: seq<Token>)
    requires LexLess(a, b) && LexLess(b, c)
    ensures LexLess(a, c)
    decreases |a|
  {
    if |a| > 0 && a[0] == b[0] && b[0] == c[0] {
      LexTransitive(a[1..], b[1..], c[1..]);
    }
  }

  lemma {:induction false} LexTotal(a: seq<Token>, b: seq<Token>)
    ensures a == b || LexLess(a, b) || LexLess(b, a)
    decreases |a|
  {
    if |a| > 0 && |b| > 0 && a[0] == b[0] {
      LexTotal(a[1..], b[1..]);
      if a[1..] == b[1..] {
        assert a == [a[0]] + a[1..] && b == [b[0]] + b[1..];
      }
    }
  }

  /** Nothing sorts strictly before itself, and `Less` never holds both ways. */
  lemma LessAsymmetric(x: string, y: string)
    ensures !Less(x, x)
    ensures Less(x, y) ==> !Less(y, x)
  {
    LexIrreflexive(Tokens(x));
    if Less(x, y) && Less(y, x) {
      LexTransitive(Tokens(x), Tokens(y), Tokens(x));
    }
  }

  /** "Not before" is transitive, which is what a sort needs of its comparator. */
  lemma NotLessTransitive(x: string, y: string, z: string)
    requires !Less(x, y) && !Less(y, z)
    ensures !Less(x, z)
  {
    var a, b, c := Tokens(x), Tokens(y), Tokens(z);
    LexTotal(a, b);
    LexTotal(b, c);
    if b != a && c != b {
      LexTransitive(c, b, a);
    }
    LexIrreflexive(a);
    if LexLess(c, a) && LexLess(a, c) {
      LexTransitive(a, c, a);
    }
  }

  /** A numeral followed by a non-digit, or by nothing, is one number token. */
  lemma {:induction false} TokensOfNumeral(n: nat, rest: string)
    requires rest == [] || !IsDigit(rest[0])
    ensures Tokens(Decimal(n) + rest) == [Number(n)] + Tokens(rest)
  {
    var d := Decimal(n);
    var s := d + rest;
    if rest == [] {
      assert s == d;
      AllDigitsTaken(d);
    } else {
      LeadingDigitsOf(d, rest);
    }
    assert s[..|d|] == d;
    assert s[|d|..] == rest;
    ParseDecimalOfDecimal(n);
  }

  /** Keys whose leading numbers differ compare by the numbers' values, not
      by their text: `10.0` sorts after `9.0`. */
  lemma {:induction false} LeadingNumberDecides(m: nat, n: nat, x: string, y: string)
    requires x == [] || !IsDigit(x[0])
    requires y == [] || !IsDigit(y[0])
    requires m != n
    ensures Less(Decimal(m) + x, Decimal(n) + y) <==> m < n
  {
    TokensOfNumeral(m, x);
    TokensOfNumeral(n, y);
  }

  /** A shared leading number and separator leave the comparison to what
      follows: `1.10` against `1.9` is `10` against `9`. */
  lemma {:induction false} SharedNumberDefers(n: nat, c: char, x: string, y: string)
    requires !IsDigit(c)
    ensures Less(Decimal(n) + ([c] + x), Decimal(n) + ([c] + y)) <==> Less(x, y)
  {
    NumberSymbolTokens(n, c, x);
    NumberSymbolTokens(n, c, y);
    CommonHeadDefers([Number(n), Symbol(c)], Tokens(x), Tokens(y));
  }

  /** A numeral and a non-digit character are a number and a symbol token. */
  lemma {:induction false} NumberSymbolTokens(n: nat, c: char, x: string)
    requires !IsDigit(c)
    ensures Tokens(Decimal(n) + ([c] + x)) == [Number(n), Symbol(c)] + Tokens(x)
  {
    TokensOfNumeral(n, [c] + x);
    SymbolThenTokens(c, x);
    assert [Number(n)] + ([Symbol(c)] + Tokens(x)) == [Number(n), Symbol(c)] + Tokens(x);
  }

  /** A non-digit character is one symbol token. */
  lemma {:induction false} SymbolThenTokens(c: char, x: string)
    requires !IsDigit(c)
    ensures Tokens([c] + x) == [Symbol(c)] + Tokens(x)
  {
    assert ([c] + x)[1..] == x;
  }

  /** Token sequences with a common head compare as their tails do. */
  lemma {:induction false} CommonHeadDefers(h: seq<Token>, a: seq<Token>, b: seq<Token>)
    ensures LexLess(h + a, h + b) <==> LexLess(a, b)
    decreases |h|
  {
    if h != [] {
      assert (h + a)[1..] == h[1..] + a;
      assert (h + b)[1..] == h[1..] + b;
      CommonHeadDefers(h[1..], a, b);
    } else {
      assert h + a == a && h + b == b;
    }
  }

  // ---------------------------------------------------------------------------
  // Sorting (key, value) pairs by key, newest first

  /** No pair is followed by a pair whose key sorts after it. */
  ghost predicate SortedDescending<T>(s: seq<(string, T)>) {
    forall i, j :: 0 <= i < j < |s| ==> !Less(s[i].0, s[j].0)
  }

  /** Place `x` before the first pair whose key does not sort after it. */
  function Insert<T>(x: (string, T), s: seq<(string, T)>): seq<(string, T)>
    decreases |s|
  {
    if s == [] then [x]
    else if Less(x.0, s[0].0) then [s[0]] + Insert(x, s[1..])
    else [x] + s
  }

  /** The array sort of the page: a stable insertion sort, newest first. */
  function SortDescending<T>(s: seq<(string, T)>): seq<(string, T)>
    decreases |s|
  {
    if s == [] then [] else Insert(s[0], SortDescending(s[1..]))
  }

  /** `s.map(f)` */
  function Project<T, U>(s: seq<T>, f: T -> U): (r: seq<U>)
    ensures |r| == |s| && forall i :: 0 <= i < |s| ==> r[i] == f(s[i])
    decreases |s|
  {
    if s == [] then [] else [f(s[0])] + Project(s[1..], f)
  }

  lemma {:induction false} InsertPermutes<T, U>(x: (string, T), s: seq<(string, T)>, f: ((string, T)) -> U)
    ensures multiset(Project(Insert(x, s), f)) == multiset(Project(s, f)) + multiset{f(x)}
    decreases |s|
  {
    if s != [] && Less(x.0, s[0].0) {
      InsertPermutes(x, s[1..], f);
      assert Project(Insert(x, s), f) == [f(s[0])] + Project(Insert(x, s[1..]), f);
      assert Project(s, f) == [f(s[0])] + Project(s[1..], f);
    } else if s != [] {
      assert Project(Insert(x, s), f) == [f(x)] + Project(s, f);
    }
  }

  /** Sorting rearranges the pairs: any projection of them (their keys, or
      the pairs themselves) keeps its multiset. */
  lemma {:induction false} SortPermutes<T, U>(s: seq<(string, T)>, f: ((string, T)) -> U)
    ensures |SortDescending(s)| == |s|
    ensures multiset(Project(SortDescending(s), f)) == multiset(Project(s, f))
    decreases |s|
  {
    if s != [] {
      var rest := SortDescending(s[1..]);
      SortPermutes(s[1..], f);
      InsertPermutes(s[0], rest, f);
      calc {
        multiset(Project(SortDescending(s), f));
        multiset(Project(Insert(s[0], rest), f));
        multiset(Project(rest, f)) + multiset{f(s[0])};
        multiset(Project(s[1..], f)) + multiset{f(s[0])};
        multiset([f(s[0])] + Project(s[1..], f));
        multiset(Project(s, f));
      }
    }
  }

  /** Every pair of `Insert(x, s)` is `x` or a pair of `s`. */
  lemma {:induction false} InsertMembers<T>(x: (string, T), s: seq<(string, T)>)
    ensures forall j :: 0 <= j < |Insert(x, s)| ==> Insert(x, s)[j] == x || Insert(x, s)[j] in s
    decreases |s|
  {
    if s != [] && Less(x.0, s[0].0) {
      InsertMembers(x, s[1..]);
    }
  }

  lemma ConsKeepsSorted<T>(h: (string, T), rest: seq<(string, T)>)
    requires SortedDescending(rest)
    requires forall j :: 0 <= j < |rest| ==> !Less(h.0, rest[j].0)
    ensures SortedDescending([h] + rest)
  {
    var r := [h] + rest;
    forall i, j | 0 <= i < j < |r|
      ensures !Less(r[i].0, r[j].0)
    {
      if i > 0 {
        assert r[i] == rest[i - 1] && r[j] == rest[j - 1];
      }
    }
  }

  lemma {:induction false} InsertKeepsSorted<T>(x: (string, T), s: seq<(string, T)>)
    requires SortedDescending(s)
    ensures SortedDescending(Insert(x, s))
    decreases |s|
  {
    if s == [] {
    } else if Less(x.0, s[0].0) {
      InsertKeepsSorted(x, s[1..]);
      var rest := Insert(x, s[1..]);
      InsertMembers(x, s[1..]);
      forall j | 0 <= j < |rest|
        ensures !Less(s[0].0, rest[j].0)
      {
        if rest[j] == x {
          LessAsymmetric(x.0, s[0].0);
        } else {
          var k :| 0 <= k < |s[1..]| && s[1..][k] == rest[j];
          assert s[k + 1] == rest[j];
        }
      }
      ConsKeepsSorted(s[0], rest);
    } else {
      forall j | 0 <= j < |s|
        ensures !Less(x.0, s[j].0)
      {
        if j > 0 {
          NotLessTransitive(x.0, s[0].0, s[j].0);
        }
      }
      ConsKeepsSorted(x, s);
    }
  }

  lemma {:induction false} SortIsSorted<T>(s: seq<(string, T)>)
    ensures SortedDescending(SortDescending(s))
    decreases |s|
  {
    if s != [] {
      SortIsSorted(s[1..]);
      InsertKeepsSorted(s[0], SortDescending(s[1..]));
    }
  }

  /** Sorting introduces no pair that the input does not hold. */
  lemma {:induction false} SortMembers<T>(s: seq<(string, T)>)
    ensures forall j :: 0 <= j < |SortDescending(s)| ==> SortDescending(s)[j] in s
    decreases |s|
  {
    if s != [] {
      SortMembers(s[1..]);
      InsertMembers(s[0], SortDescending(s[1..]));
    }
  }

  /** The sort is stable where the page depends on it: among keys that
      compare equal to a greatest key (such as `1.0` and `1.00`), the first
      pair after sorting is the one that comes earliest in the input. Every
      pair before it in the input sorts strictly before it. */
  lemma {:induction false} FirstIsEarliestGreatest<T>(s: seq<(string, T)>)
    requires |s| > 0
    ensures |SortDescending(s)| > 0
    ensures exists k :: && 0 <= k < |s| && SortDescending(s)[0] == s[k]
                        && (forall i :: 0 <= i < |s| ==> !Less(s[k].0, s[i].0))
                        && (forall j :: 0 <= j < k ==> Less(s[j].0, s[k].0))
    decreases |s|
  {
    var x := s[0];
    if |s| == 1 {
      LessAsymmetric(x.0, x.0);
      assert SortDescending(s)[0] == s[0];
    } else {
      var t := s[1..];
      var r := SortDescending(t);
      FirstIsEarliestGreatest(t);
      var k' :| && 0 <= k' < |t| && r[0] == t[k']
                && (forall i :: 0 <= i < |t| ==> !Less(t[k'].0, t[i].0))
                && (forall j :: 0 <= j < k' ==> Less(t[j].0, t[k'].0));
      if Less(x.0, r[0].0) {
        assert SortDescending(s)[0] == s[k' + 1];
        forall i | 0 <= i < |s|
          ensures !Less(s[k' + 1].0, s[i].0)
        {
          if i == 0 {
            LessAsymmetric(x.0, r[0].0);
          } else {
            assert s[i] == t[i - 1];
          }
        }
        forall j | 0 <= j < k' + 1
          ensures Less(s[j].0, s[k' + 1].0)
        {
          if j > 0 {
            assert s[j] == t[j - 1];
          }
        }
      } else {
        assert SortDescending(s)[0] == s[0];
        forall i | 0 <= i < |s|
          ensures !Less(s[0].0, s[i].0)
        {
          if i == 0 {
            LessAsymmetric(x.0, x.0);
          } else {
            assert s[i] == t[i - 1];
            NotLessTransitive(x.0, r[0].0, s[i].0);
          }
        }
      }
    }
  }

  /** The first key after sorting is a greatest key: no key of the input
      sorts after it. */
  lemma FirstIsGreatest<T>(s: seq<(string, T)>)
    requires |s| > 0
    ensures |SortDescending(s)| == |s|
    ensures forall i :: 0 <= i < |s| ==> !Less(SortDescending(s)[0].0, s[i].0)
  {
    var r := SortDescending(s);
    var key := (p: (string, T)) => p.0;
    SortPermutes(s, key);
    SortIsSorted(s);
    forall i | 0 <= i < |s|
      ensures !Less(r[0].0, s[i].0)
    {
      assert Project(s, key)[i] == s[i].0;
      assert s[i].0 in multiset(Project(r, key));
      var j :| 0 <= j < |r| && Project(r, key)[j] == s[i].0;
      if j == 0 {
        LessAsymmetric(r[0].0, r[0].0);
      }
    }
  }
}
