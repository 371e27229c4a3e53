/** The accent colour of the catalog page (src/app/vpm/page.tsx): the
    browser's computed `rgb(r, g, b)` text for the theme's primary colour is
    turned into a `#rrggbb` string. The computed text comes from the browser
    and is a parameter here. */
module PrimaryColour {
  import opened Options
  import opened Strings

  /** The colour shown before any theme colour is read. */
  const InitialColour := "#888888"

  /** A character of the regular-expression class `\s`: the white-space and
      line-terminator characters of ECMAScript. */
  predicate IsSpace(c: char) {
    var u := c as int;
    || u == 0x09 || u == 0x0A || u == 0x0B || u == 0x0C || u == 0x0D || u == 0x20
    || u == 0xA0 || u == 0x1680 || (0x2000 <= u <= 0x200A) || u == 0x2028 || u == 0x2029
    || u == 0x202F || u == 0x205F || u == 0x3000 || u == 0xFEFF
  }

  predicate AllSpace(s: string) {
    forall k :: 0 <= k < |s| ==> IsSpace(s[k])
  }

  /** The length of the longest run of `\s` characters at the start of `s`. */
  function SpaceRun(s: string): (n: nat)
    ensures n <= |s|
    ensures n == |s| || !IsSpace(s[n])
  {
    if s != [] && IsSpace(s[0]) then 1 + SpaceRun(s[1..]) else 0
  }

  /** Every character the run covers is white space. */
  lemma {:induction false} SpaceRunSpaces(s: string)
    ensures AllSpace(s[..SpaceRun(s)])
    decreases |s|
  {
    if s != [] && IsSpace(s[0]) {
      SpaceRunSpaces(s[1..]);
      assert s[..SpaceRun(s)] == [s[0]] + s[1..][..SpaceRun(s[1..])];
    }
  }

  /** The three capture groups of a match. */
  datatype Captures = Captures(r: string, g: string, b: string)

  /** One `\s*(\d+)` followed by `close` at the start of `s` (leading white
      space only when `spaces`): the captured digits and the length consumed.
      A digit run is always taken whole, since the character after it must be
      `close`, which is no digit; the same holds for the white-space run, so
      the regular expression's backtracking never changes the outcome. */
  function Field(s: string, spaces: bool, close: char): (r: Option<(string, nat)>)
    requires !IsDigit(close) && !IsSpace(close)
    ensures r.Some? ==> r.value.1 <= |s|
  {
    var w := if spaces then SpaceRun(s) else 0;
    var t := s[w..];
    var d := LeadingDigits(t);
    if d == 0 || d == |t| || t[d] != close then None
    else Some((t[..d], w + d + 1))
  }

  /** The pattern `rgb\((\d+),\s*(\d+),\s*(\d+)\)` matched at the start of
      `s`, with its three capture groups. */
  function MatchAt(s: string): (r: Option<Captures>)
    ensures r.Some? ==> StartsWith(s, "rgb(")
  {
    if !StartsWith(s, "rgb(") then None
    else
      match Field(s[4..], false, ',')
      case None => None
      case Some((r, i)) =>
        var s1 := s[4 + i..];
        match Field(s1, true, ',')
        case None => None
        case Some((g, j)) =>
          match Field(s1[j..], true, ')')
          case None => None
          case Some((b, _)) => Some(Captures(r, g, b))
  }

  /** An unanchored, non-global `match`: the result of the leftmost start
      position at which `m` matches. */
  function FindFirst<T(==)>(s: string, m: string -> Option<T>): (r: Option<T>)
    ensures r.None? <==> forall i :: 0 <= i <= |s| ==> m(s[i..]).None?
    ensures r.Some? ==>
      exists i :: 0 <= i <= |s| && m(s[i..]) == r && forall j :: 0 <= j < i ==> m(s[j..]).None?
    decreases |s|
  {
    if m(s).Some? then
      assert s[0..] == s;
      m(s)
    else if s == [] then
      assert forall i :: 0 <= i <= |s| ==> s[i..] == s;
      None
    else
      var r := FindFirst(s[1..], m);
      assert forall i :: 1 <= i <= |s| ==> s[i..] == s[1..][i - 1..];
      assert s[0..] == s;
      if r.Some? then
        var i :| 0 <= i <= |s[1..]| && m(s[1..][i..]) == r &&
          forall j :: 0 <= j < i ==> m(s[1..][j..]).None?;
        assert m(s[i + 1..]) == r;
        r
      else
        r
  }

  /** `parseInt(x)` for a text that starts with a decimal digit: the value of
      its leading digits. */
  function ParseInt(x: string): nat {
    var n := LeadingDigits(x);
    ParseDecimal(x[..n])
  }

  /** `'#'` followed by each channel as `toString(16).padStart(2, '0')`. */
  function HexOf(r: nat, g: nat, b: nat): string {
    "#" + PadStart2(Hex(r)) + PadStart2(Hex(g)) + PadStart2(Hex(b))
  }

  /** The colour of a match: each captured channel read as a decimal
      number and written as at least two hex digits, after a `#`. */
  function HexColour(c: Captures): string {
    HexOf(ParseInt(c.r), ParseInt(c.g), ParseInt(c.b))
  }

  /** The hex colour of the leftmost `rgb(...)` in `computed`, if any. */
  function RgbToHex(computed: string): (r: Option<string>)
    ensures r.None? <==> forall i :: 0 <= i <= |computed| ==> MatchAt(computed[i..]).None?
    ensures r.Some? ==>
      exists i, c :: && 0 <= i <= |computed| && MatchAt(computed[i..]) == Some(c) && r == Some(HexColour(c))
                     && forall j :: 0 <= j < i ==> MatchAt(computed[j..]).None?
  {
    match FindFirst(computed, MatchAt)
    case None => None
    case Some(c) => Some(HexColour(c))
  }

  /** One run of `updateColor`: a blank `--fd-primary` or a computed colour
      without an `rgb(...)` leaves the colour as it was. */
  function UpdateColour(current: string, fdPrimary: string, computed: string): (r: string)
    ensures AllSpace(fdPrimary) ==> r == current
    ensures !AllSpace(fdPrimary) ==> r == RgbToHex(computed).GetOr(current)
  {
    SpaceRunSpaces(fdPrimary);
    assert fdPrimary[..|fdPrimary|] == fdPrimary;
    if SpaceRun(fdPrimary) == |fdPrimary| then current
    else
      match RgbToHex(computed)
      case None => current
      case Some(h) => h
  }

  /** One call of `updateColor`: the trimmed `--fd-primary` value and the
      colour text the browser computed for it. */
  datatype Run = Run(fdPrimary: string, computed: string)

  /** The colour a run sets, if it sets one. */
  function Shown(run: Run): Option<string> {
    if AllSpace(run.fdPrimary) then None else RgbToHex(run.computed)
  }

  /** A run replaces the colour by the one it sets, and keeps it otherwise. */
  lemma {:induction false} UpdateByShown(current: string, run: Run)
    ensures UpdateColour(current, run.fdPrimary, run.computed) == Shown(run).GetOr(current)
  {
  }

  /** The colour after the runs on mounting and on each theme change, in
      order, starting from the initial colour. */
  function ColourAfter(runs: seq<Run>): string {
    if runs == [] then InitialColour
    else
      var last := runs[|runs| - 1];
      UpdateColour(ColourAfter(runs[..|runs| - 1]), last.fdPrimary, last.computed)
  }

  /** The colours the runs set, run by run. */
  function ShownAll(runs: seq<Run>): (r: seq<Option<string>>)
    ensures |r| == |runs| && forall k :: 0 <= k < |runs| ==> r[k] == Shown(runs[k])
  {
    seq(|runs|, k requires 0 <= k < |runs| => Shown(runs[k]))
  }

  /** `colour`, replaced in turn by every colour that is set. */
  function Settle(colour: string, shown: seq<Option<string>>): string {
    if shown == [] then colour
    else shown[|shown| - 1].GetOr(Settle(colour, shown[..|shown| - 1]))
  }

  /** Replaying the runs settles the initial colour with the colours they
      set. */
  lemma {:induction false} ColourAfterSettles(runs: seq<Run>)
    ensures ColourAfter(runs) == Settle(InitialColour, ShownAll(runs))
  {
    if runs != [] {
      var n := |runs| - 1;
      ColourAfterSettles(runs[..n]);
      assert ShownAll(runs)[..n] == ShownAll(runs[..n]);
      UpdateByShown(ColourAfter(runs[..n]), runs[n]);
    }
  }

  /** The colour is the initial one or the colour set by one of the runs. */
  lemma {:induction false} ColourFromSomeRun(runs: seq<Run>)
    ensures ColourAfter(runs) == InitialColour || exists k :: 0 <= k < |runs| && Shown(runs[k]) == Some(ColourAfter(runs))
  {
    ColourAfterSettles(runs);
    SettleFromSome(InitialColour, ShownAll(runs));
  }

  /** While no run sets a colour, the colour stays the initial one. */
  lemma {:induction false} NoRunKeepsInitial(runs: seq<Run>)
    requires forall k :: 0 <= k < |runs| ==> Shown(runs[k]).None?
    ensures ColourAfter(runs) == InitialColour
  {
    ColourAfterSettles(runs);
    SettleWithoutColours(InitialColour, ShownAll(runs));
  }

  /** The latest run that sets a colour decides the colour. */
  lemma {:induction false} LatestRunDecides(runs: seq<Run>, k: nat)
    requires k < |runs| && Shown(runs[k]).Some?
    requires forall j :: k < j < |runs| ==> Shown(runs[j]).None?
    ensures ColourAfter(runs) == Shown(runs[k]).value
  {
    ColourAfterSettles(runs);
    SettleLatest(InitialColour, ShownAll(runs), k);
  }

  /** A settled colour is the starting one or one of the colours set. */
  lemma {:induction false} SettleFromSome(colour: string, shown: seq<Option<string>>)
    ensures Settle(colour, shown) == colour || exists k :: 0 <= k < |shown| && shown[k] == Some(Settle(colour, shown))
  {
    if shown != [] {
      var n := |shown| - 1;
      SettleFromSome(colour, shown[..n]);
      if shown[n].None? && Settle(colour, shown[..n]) != colour {
        var k :| 0 <= k < n && shown[..n][k] == Some(Settle(colour, shown[..n]));
        assert shown[k] == shown[..n][k];
      }
    }
  }

  /** Without any colour set, the starting colour stays. */
  lemma {:induction false} SettleWithoutColours(colour: string, shown: seq<Option<string>>)
    requires forall k :: 0 <= k < |shown| ==> shown[k].None?
    ensures Settle(colour, shown) == colour
  {
    if shown != [] {
      var n := |shown| - 1;
      assert forall k :: 0 <= k < n ==> shown[..n][k] == shown[k];
      SettleWithoutColours(colour, shown[..n]);
    }
  }

  /** The last colour set is the settled one. */
  lemma {:induction false} SettleLatest(colour: string, shown: seq<Option<string>>, k: nat)
    requires k < |shown| && shown[k].Some?
    requires forall j :: k < j < |shown| ==> shown[j].None?
    ensures Settle(colour, shown) == shown[k].value
  {
    var n := |shown| - 1;
    if k < n {
      assert shown[..n][k] == shown[k];
      assert forall j :: k < j < n ==> shown[..n][j] == shown[j];
      SettleLatest(colour, shown[..n], k);
    }
  }

  /** For channels up to 255 the colour is `#` followed by three two-digit
      lower-case hex numbers that read back as the channels. */
  lemma {:induction false} HexOfShape(r: nat, g: nat, b: nat)
    requires r < 256 && g < 256 && b < 256
    ensures var h := HexOf(r, g, b);
      && |h| == 7 && h[0] == '#'
      && (forall k :: 1 <= k < 7 ==> IsLowerHexDigit(h[k]))
      && ParseHex(h[1..3]) == r && ParseHex(h[3..5]) == g && ParseHex(h[5..7]) == b
  {
    HexByte(r);
    HexByte(g);
    HexByte(b);
    HexParts(HexOf(r, g, b), PadStart2(Hex(r)), PadStart2(Hex(g)), PadStart2(Hex(b)));
  }

  /** `#` and three two-character parts, read back part by part. */
  lemma {:induction false} HexParts(h: string, x: string, y: string, z: string)
    requires |x| == 2 && |y| == 2 && |z| == 2 && h == "#" + x + y + z
    ensures |h| == 7 && h[0] == '#' && h[1..3] == x && h[3..5] == y && h[5..7] == z
    ensures h[1] == x[0] && h[2] == x[1] && h[3] == y[0] && h[4] == y[1] && h[5] == z[0] && h[6] == z[1]
  {
  }

  /** The text a browser gives for a computed colour, with the white space
      it puts after each comma. */
  function RgbText(r: nat, g: nat, b: nat, space1: string, space2: string): string {
    ShapeText(Captures(Decimal(r), Decimal(g), Decimal(b)), space1, space2, "")
  }

  /** The hex colour of a browser's `rgb(...)` text is built from its three
      numbers. */
  lemma {:induction false} RgbTextToHex(r: nat, g: nat, b: nat, space1: string, space2: string)
    requires AllSpace(space1) && AllSpace(space2)
    ensures RgbToHex(RgbText(r, g, b, space1, space2)) == Some(HexOf(r, g, b))
  {
    var s := RgbText(r, g, b, space1, space2);
    ShapeMatches(Captures(Decimal(r), Decimal(g), Decimal(b)), space1, space2, "");
    assert s[0..] == s;
    ParseIntOfDecimal(r);
    ParseIntOfDecimal(g);
    ParseIntOfDecimal(b);
  }

  /** `parseInt` reads a decimal numeral back. */
  lemma {:induction false} ParseIntOfDecimal(n: nat)
    ensures ParseInt(Decimal(n)) == n
  {
    var d := Decimal(n);
    assert LeadingDigits(d) == |d| by {
      AllDigitsTaken(d);
    }
    assert d[..|d|] == d;
    ParseDecimalOfDecimal(n);
  }

  /** `MatchAt` in terms of its three fields. */
  lemma {:induction false} MatchAtFields(s: string, t: string, rest1: string, rest2: string)
    requires s == "rgb(" + t
    requires Field(t, false, ',').Some? && t[Field(t, false, ',').value.1..] == rest1
    requires Field(rest1, true, ',').Some? && rest1[Field(rest1, true, ',').value.1..] == rest2
    requires Field(rest2, true, ')').Some?
    ensures MatchAt(s) == Some(Captures(Field(t, false, ',').value.0, Field(rest1, true, ',').value.0, Field(rest2, true, ')').value.0))
  {
    assert StartsWith(s, "rgb(");
    assert s[4..] == t;
    assert s[4 + Field(t, false, ',').value.1..] == rest1;
  }

  // ---------------------------------------------------------------------------
  // The pattern's language

  /** A text that starts with a match of the pattern: `rgb(`, the captures
      separated by commas, white space `w1` and `w2` after the commas, `)`,
      then anything. */
  function ShapeText(c: Captures, w1: string, w2: string, rest: string): string {
    "rgb(" + (c.r + ("," + (w1 + (c.g + ("," + (w2 + (c.b + (")" + rest))))))))
  }

  /** Each capture of `\d+` is a non-empty run of decimal digits. */
  predicate DigitCaptures(c: Captures) {
    c.r != [] && AllDigits(c.r) && c.g != [] && AllDigits(c.g) && c.b != [] && AllDigits(c.b)
  }

  /** `s` starts with a match of `rgb\((\d+),\s*(\d+),\s*(\d+)\)` whose
      captures are `c`. */
  ghost predicate MatchesWith(s: string, c: Captures) {
    DigitCaptures(c) && exists w1, w2, rest :: AllSpace(w1) && AllSpace(w2) && s == ShapeText(c, w1, w2, rest)
  }

  /** The matcher accepts exactly the texts that start with a match of the
      pattern, and captures that match's digit runs. */
  lemma {:induction false} MatchAtIff(s: string, c: Captures)
    ensures MatchAt(s) == Some(c) <==> MatchesWith(s, c)
  {
    if MatchesWith(s, c) {
      var w1, w2, rest :| AllSpace(w1) && AllSpace(w2) && s == ShapeText(c, w1, w2, rest);
      ShapeMatches(c, w1, w2, rest);
    }
    if MatchAt(s) == Some(c) {
      MatchAtShape(s);
    }
  }

  /** Every text of the pattern's shape matches, with its own captures. */
  lemma {:induction false} ShapeMatches(c: Captures, w1: string, w2: string, rest: string)
    requires DigitCaptures(c) && AllSpace(w1) && AllSpace(w2)
    ensures MatchAt(ShapeText(c, w1, w2, rest)) == Some(c)
  {
    var rest2 := w2 + (c.b + (")" + rest));
    var rest1 := w1 + (c.g + ("," + rest2));
    var t := c.r + ("," + rest1);
    MatchFromPieces(ShapeText(c, w1, w2, rest), t, rest1, rest2, c, w1, w2, rest);
  }

  /** The match of a text given as its three fields and what follows each. */
  lemma {:induction false} MatchFromPieces(s: string, t: string, rest1: string, rest2: string, c: Captures, w1: string, w2: string, rest: string)
    requires DigitCaptures(c) && AllSpace(w1) && AllSpace(w2)
    requires s == "rgb(" + t && t == c.r + ("," + rest1)
    requires rest1 == w1 + (c.g + ("," + rest2)) && rest2 == w2 + (c.b + (")" + rest))
    ensures MatchAt(s) == Some(c)
  {
    FirstField(c.r, rest1);
    CommaField(w1, c.g, rest2);
    CloseField(w2, c.b, rest);
    MatchAtFields(s, t, rest1, rest2);
  }

  /** The middle field: white space, digits, then a comma. */
  lemma {:induction false} CommaField(pre: string, d: string, rest: string)
    requires AllSpace(pre)
    requires d != [] && AllDigits(d)
    ensures Field(pre + (d + ("," + rest)), true, ',') == Some((d, |pre| + |d| + 1))
    ensures (pre + (d + ("," + rest)))[|pre| + |d| + 1..] == rest
  {
    assert "," + rest == [','] + rest;
    SpacedField(pre, d, ',', rest);
  }

  /** The last field followed by any text. */
  lemma {:induction false} CloseField(pre: string, d: string, rest: string)
    requires AllSpace(pre)
    requires d != [] && AllDigits(d)
    ensures Field(pre + (d + (")" + rest)), true, ')').Some?
    ensures Field(pre + (d + (")" + rest)), true, ')').value.0 == d
  {
    assert ")" + rest == [')'] + rest;
    SpacedField(pre, d, ')', rest);
  }

  /** Every match has the pattern's shape. */
  lemma {:induction false} MatchAtShape(s: string)
    requires MatchAt(s).Some?
    ensures MatchesWith(s, MatchAt(s).value)
  {
    var t, s1, s2 := MatchAtParts(s);
    var i := Field(t, false, ',').value.1;
    var k := Field(s2, true, ')').value.1;
    var c := MatchAt(s).value;
    FieldSplit(t, false, ',');
    FieldSplit(s1, true, ',');
    FieldSplit(s2, true, ')');
    var w1 := s1[..SpaceRun(s1)];
    var w2 := s2[..SpaceRun(s2)];
    var rest := s2[k..];
    assert t[..0] == [] && t[i..] == s1;
    assert s2 == w2 + (c.b + (")" + rest));
    assert s1 == w1 + (c.g + ("," + s2));
    assert t == c.r + ("," + s1);
    PrefixSplit(s, "rgb(");
    Assemble(s, t, s1, s2, c, w1, w2, rest);
    ShapeWitness(s, c, w1, w2, rest);
  }

  /** A text that starts with `p` is `p` followed by the rest. */
  lemma {:induction false} PrefixSplit(s: string, p: string)
    requires StartsWith(s, p)
    ensures s == p + s[|p|..]
  {
    assert s == s[..|p|] + s[|p|..];
  }

  /** The pieces of a match put back together. */
  lemma {:induction false} Assemble(s: string, t: string, s1: string, s2: string, c: Captures, w1: string, w2: string, rest: string)
    requires s == "rgb(" + t && t == c.r + ("," + s1)
    requires s1 == w1 + (c.g + ("," + s2)) && s2 == w2 + (c.b + (")" + rest))
    ensures s == ShapeText(c, w1, w2, rest)
  {
  }

  lemma {:induction false} ShapeWitness(s: string, c: Captures, w1: string, w2: string, rest: string)
    requires DigitCaptures(c) && AllSpace(w1) && AllSpace(w2) && s == ShapeText(c, w1, w2, rest)
    ensures MatchesWith(s, c)
  {
  }

  /** What a successful match consists of: `rgb(` and three field reads. */
  lemma {:induction false} MatchAtParts(s: string) returns (t: string, s1: string, s2: string)
    requires MatchAt(s).Some?
    ensures StartsWith(s, "rgb(") && t == s[4..]
    ensures Field(t, false, ',').Some? && s1 == t[Field(t, false, ',').value.1..]
    ensures Field(s1, true, ',').Some? && s2 == s1[Field(s1, true, ',').value.1..]
    ensures Field(s2, true, ')').Some?
    ensures MatchAt(s).value == Captures(Field(t, false, ',').value.0, Field(s1, true, ',').value.0, Field(s2, true, ')').value.0)
  {
    t := s[4..];
    var i := Field(t, false, ',').value.1;
    s1 := t[i..];
    assert s1 == s[4 + i..];
    s2 := s1[Field(s1, true, ',').value.1..];
  }

  /** A field, once read, splits its text into white space, the digits,
      the closing character and the remainder. */
  lemma {:induction false} FieldSplit(x: string, spaces: bool, close: char)
    requires !IsDigit(close) && !IsSpace(close)
    requires Field(x, spaces, close).Some?
    ensures var w := if spaces then SpaceRun(x) else 0;
      var d := Field(x, spaces, close).value.0;
      var n := Field(x, spaces, close).value.1;
      && d != [] && AllDigits(d) && AllSpace(x[..w])
      && w + |d| + 1 == n <= |x|
      && x == x[..w] + (d + ([close] + x[n..]))
  {
    var w := if spaces then SpaceRun(x) else 0;
    FieldParts(x, spaces, close);
    SpaceRunSpaces(x);
    var m := LeadingDigits(x[w..]);
    var d := Field(x, spaces, close).value.0;
    assert d == x[w..w + m] by {
      assert x[w..][..m] == x[w..w + m];
    }
    Cut(x, w, d, close, Field(x, spaces, close).value.1);
  }

  /** What a successful field read consists of. */
  lemma {:induction false} FieldParts(x: string, spaces: bool, close: char)
    requires !IsDigit(close) && !IsSpace(close)
    requires Field(x, spaces, close).Some?
    ensures var w := if spaces then SpaceRun(x) else 0;
      var m := LeadingDigits(x[w..]);
      && 0 < m && w + m < |x| && x[w + m] == close
      && Field(x, spaces, close) == Some((x[w..][..m], w + m + 1))
  {
    var w := if spaces then SpaceRun(x) else 0;
    var t := x[w..];
    var m := LeadingDigits(t);
    assert m != 0 && m != |t| && t[m] == close;
    assert t[m] == x[w + m];
  }

  /** A text cut after `w` characters into the run `d`, the character `c`
      after it, and the rest. */
  lemma {:induction false} Cut(x: string, w: nat, d: string, c: char, n: nat)
    requires w + |d| < |x| && d == x[w..w + |d|] && c == x[w + |d|] && n == w + |d| + 1
    ensures x == x[..w] + (d + ([c] + x[n..]))
  {
    assert x == x[..w] + x[w..w + |d|] + x[w + |d|..n] + x[n..];
  }

  /** The first field: digits, then a comma. */
  lemma {:induction false} FirstField(d: string, rest: string)
    requires d != [] && AllDigits(d)
    ensures Field(d + ("," + rest), false, ',') == Some((d, |d| + 1))
    ensures (d + ("," + rest))[|d| + 1..] == rest
  {
    var s := d + ("," + rest);
    LeadingDigitsOf(d, "," + rest);
    assert s[0..] == s;
    assert s[..|d|] == d;
    assert s[|d| + 1..] == rest;
  }

  /** A later field: white space, digits, then `close`. */
  lemma {:induction false} SpacedField(pre: string, d: string, close: char, rest: string)
    requires !IsDigit(close) && !IsSpace(close)
    requires AllSpace(pre)
    requires d != [] && AllDigits(d)
    ensures Field(pre + (d + ([close] + rest)), true, close) == Some((d, |pre| + |d| + 1))
    ensures (pre + (d + ([close] + rest)))[|pre| + |d| + 1..] == rest
  {
    var s := pre + (d + ([close] + rest));
    assert !IsSpace(d[0]);
    SpaceRunOf(pre, d + ([close] + rest));
    var t := s[|pre|..];
    assert t == d + ([close] + rest);
    LeadingDigitsOf(d, [close] + rest);
    assert t[|d|] == close && t[..|d|] == d;
    FieldAt(s, |pre|, d, close, true);
    assert s[|pre| + |d| + 1..] == rest;
  }

  /** The field read once the white-space run, digit run and closing
      character are known. */
  lemma {:induction false} FieldAt(s: string, w: nat, d: string, close: char, spaces: bool)
    requires !IsDigit(close) && !IsSpace(close)
    requires (if spaces then SpaceRun(s) else 0) == w <= |s|
    requires var t := s[w..]; LeadingDigits(t) == |d| < |t| && t[|d|] == close && t[..|d|] == d
    requires d != []
    ensures Field(s, spaces, close) == Some((d, w + |d| + 1))
  {
  }

  /** A run of white space before a non-space is skipped whole. */
  lemma {:induction false} SpaceRunOf(pre: string, rest: string)
    requires AllSpace(pre)
    requires rest != [] && !IsSpace(rest[0])
    ensures SpaceRun(pre + rest) == |pre|
  {
    var s := pre + rest;
    SpaceRunSpaces(s);
    assert forall k :: 0 <= k < |pre| ==> s[k] == pre[k];
    assert s[|pre|] == rest[0];
    assert SpaceRun(s) <= |pre| by {
      if SpaceRun(s) > |pre| {
        assert s[..SpaceRun(s)][|pre|] == s[|pre|];
      }
    }
  }
}
