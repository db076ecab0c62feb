/**
 * The page-range parser both the splitter and the merger use
 * (`_parse_page_range`), and the two bounds filters the engines apply to
 * page indices and page numbers.
 */
module PageRange {
  import opened Wrappers
  import opened Text

  /** Python's `range(lo, hi)`: empty when `lo >= hi`. */
  function Interval(lo: int, hi: int): seq<int>
  {
    seq(if lo < hi then hi - lo else 0, k => lo + k)
  }

  /** What one comma-separated token says: `start-end`, a single page number, or nothing readable. */
  datatype Token = Span(start: nat, end: nat) | Single(number: nat) | Malformed

  /**
   * Reading one token: a token with a hyphen must split into exactly two
   * numbers (`start, end = map(int, part.split('-'))`); any other token must
   * be one number (`int(part)`).
   */
  function Classify(part: string): Token
  {
    if '-' in part then
      var sides := Split(part, '-');
      if |sides| == 2 && ParseInt(sides[0]).Some? && ParseInt(sides[1]).Some? then
        Span(ParseInt(sides[0]).value, ParseInt(sides[1]).value)
      else Malformed
    else
      match ParseInt(part)
      case Some(p) => Single(p)
      case None => Malformed
  }

  /**
   * The zero-based indices a token contributes: `start-end` (one-based,
   * inclusive) gives `range(start - 1, end)`, a page number `p` gives `p - 1`.
   */
  function TokenIndices(t: Token): Option<seq<int>>
  {
    match t
    case Span(a, b) => Some(Interval(a - 1, b))
    case Single(p) => Some([p - 1])
    case Malformed => None
  }

  /** Both results glued together, or None when either failed. */
  function Both(a: Option<seq<int>>, b: Option<seq<int>>): Option<seq<int>>
  {
    if a.Some? && b.Some? then Some(a.value + b.value) else None
  }

  lemma BothAssociative(x: Option<seq<int>>, y: Option<seq<int>>, z: Option<seq<int>>)
    ensures Both(x, Both(y, z)) == Both(Both(x, y), z)
  {
    if x.Some? && y.Some? && z.Some? {
      assert x.value + (y.value + z.value) == (x.value + y.value) + z.value;
    }
  }

  /** The tokens' indices concatenated in token order, or None when a token is malformed. */
  function ParseTokens(tokens: seq<Token>): Option<seq<int>>
    decreases |tokens|
  {
    if tokens == [] then Some([]) else Both(TokenIndices(tokens[0]), ParseTokens(tokens[1..]))
  }

  /** The tokens of a range expression, one per comma-separated piece. */
  function Tokens(expr: string): (ts: seq<Token>)
    ensures |ts| == |Split(expr, ',')|
  {
    var parts := Split(expr, ',');
    seq(|parts|, i requires 0 <= i < |parts| => Classify(parts[i]))
  }

  /** The meaning of a range expression such as `"1-3,5,7-9"`: no sorting,
      no deduplication, no bounds check. */
  function Parse(expr: string): Option<seq<int>>
  {
    ParseTokens(Tokens(expr))
  }

  /** A piece with one hyphen is a span exactly when both sides are numbers. */
  lemma ClassifyHyphen(x: string, y: string)
    requires '-' !in x && '-' !in y
    ensures Classify(x + "-" + y) ==
      if ParseInt(x).Some? && ParseInt(y).Some? then Span(ParseInt(x).value, ParseInt(y).value) else Malformed
  {
    var part := x + "-" + y;
    assert part[|x|] == '-';
    assert Join([x, y], '-') == part by {
      assert [x, y][1..] == [y];
    }
    SplitJoin([x, y], '-');
  }

  /** `"a-b"` is read as the span from `a` to `b`. */
  lemma ClassifySpan(a: nat, b: nat)
    ensures Classify(Show(a) + "-" + Show(b)) == Span(a, b)
  {
    ClassifyHyphen(Show(a), Show(b));
    ParseIntShow(a);
    ParseIntShow(b);
  }

  /** A piece without a hyphen, `"p"`, is read as the page number `p`; `"0"` too. */
  lemma ClassifySingle(p: nat)
    ensures Classify(Show(p)) == Single(p)
    ensures Classify("0") == Single(0)
  {
    ParseIntShow(p);
    ParseIntShow(0);
    assert Show(0) == "0";
  }

  /** `range(a - 1, b)`: for `a <= b` the `b - a + 1` indices `a - 1, ..., b - 1`
      in strictly ascending order, for `a > b` nothing. */
  lemma SpanShape(a: nat, b: nat)
    ensures var r := Interval(a - 1, b);
      (a <= b ==> |r| == b - a + 1 && r[0] == a - 1 && r[|r| - 1] == b - 1 &&
                  forall i, j :: 0 <= i < j < |r| ==> r[i] < r[j]) &&
      (a > b ==> r == [])
  {
  }

  /** A piece with nothing on one side of its hyphen is malformed, as is the empty piece: `int('')` raises. */
  lemma MalformedEmptySide(s: string)
    requires '-' !in s
    ensures Classify("") == Malformed
    ensures Classify("-" + s) == Malformed
    ensures Classify(s + "-") == Malformed
  {
    ParseIntBlank("");
    MalformedNoLeft(s);
    MalformedNoRight(s);
  }

  lemma MalformedNoLeft(s: string)
    requires '-' !in s
    ensures Classify("-" + s) == Malformed
  {
    ParseIntBlank("");
    ClassifyHyphen("", s);
    assert "" + "-" + s == "-" + s;
  }

  lemma MalformedNoRight(s: string)
    requires '-' !in s
    ensures Classify(s + "-") == Malformed
  {
    ParseIntBlank("");
    ClassifyHyphen(s, "");
    assert s + "-" + "" == s + "-";
  }

  /** A piece with two hyphens is malformed. */
  lemma MalformedTwoHyphens(x: string, y: string, z: string)
    requires '-' !in x && '-' !in y && '-' !in z
    ensures Classify(x + "-" + y + "-" + z) == Malformed
  {
    var part := x + "-" + y + "-" + z;
    assert part[|x|] == '-';
    assert Join([x, y, z], '-') == part by {
      assert [x, y, z][1..] == [y, z];
      assert [y, z][1..] == [z];
      assert Join([y, z], '-') == y + "-" + z;
      assert x + "-" + (y + "-" + z) == part;
    }
    SplitJoin([x, y, z], '-');
  }

  /** Parsing distributes over concatenation of token lists. */
  lemma {:induction false} ParseTokensAppend(a: seq<Token>, b: seq<Token>)
    ensures ParseTokens(a + b) == Both(ParseTokens(a), ParseTokens(b))
    decreases |a|
  {
    if a == [] {
      assert a + b == b;
      if ParseTokens(b).Some? {
        assert [] + ParseTokens(b).value == ParseTokens(b).value;
      }
    } else {
      assert (a + b)[0] == a[0];
      assert (a + b)[1..] == a[1..] + b;
      ParseTokensAppend(a[1..], b);
      BothAssociative(TokenIndices(a[0]), ParseTokens(a[1..]), ParseTokens(b));
    }
  }

  /** The parse of comma-joined pieces is the concatenation of the pieces' indices, in comma order. */
  lemma ParseJoined(parts: seq<string>)
    requires |parts| >= 1
    requires forall i :: 0 <= i < |parts| ==> ',' !in parts[i]
    ensures Parse(Join(parts, ',')) == ParseTokens(seq(|parts|, i requires 0 <= i < |parts| => Classify(parts[i])))
  {
    SplitJoin(parts, ',');
  }

  /** The empty expression is malformed. */
  lemma ParseEmpty()
    ensures Parse("") == None
  {
    ParseIntBlank("");
    assert Split("", ',') == [""];
    assert Tokens("") == [Classify("")];
  }

  /** Three tokens in a row contribute their indices in order. */
  lemma ParseThreeTokens(t1: Token, t2: Token, t3: Token)
    ensures ParseTokens([t1, t2, t3]) == Both(Both(TokenIndices(t1), TokenIndices(t2)), TokenIndices(t3))
  {
    assert [t1, t2, t3] == [t1] + [t2] + [t3];
    ParseTokensAppend([t1] + [t2], [t3]);
    ParseTokensAppend([t1], [t2]);
    ParseOneToken(t1);
    ParseOneToken(t2);
    ParseOneToken(t3);
  }

  /** The parse of comma-joined pieces, given what each piece reads as. */
  lemma ParseJoinedTokens(parts: seq<string>, ts: seq<Token>)
    requires |parts| >= 1 && |ts| == |parts|
    requires forall i :: 0 <= i < |parts| ==> ',' !in parts[i] && Classify(parts[i]) == ts[i]
    ensures Parse(Join(parts, ',')) == ParseTokens(ts)
  {
    ParseJoined(parts);
    assert seq(|parts|, i requires 0 <= i < |parts| => Classify(parts[i])) == ts;
  }

  /** Three comma-separated pieces contribute their indices in order. */
  lemma ParseThreePieces(x: string, y: string, z: string)
    requires ',' !in x && ',' !in y && ',' !in z
    ensures Parse(x + "," + y + "," + z) ==
      Both(Both(TokenIndices(Classify(x)), TokenIndices(Classify(y))), TokenIndices(Classify(z)))
  {
    var parts := [x, y, z];
    assert Join(parts, ',') == x + "," + y + "," + z by {
      assert parts[1..] == [y, z];
      assert parts[1..][1..] == [z];
      assert Join([y, z], ',') == y + "," + z;
      assert x + "," + (y + "," + z) == x + "," + y + "," + z;
    }
    ParseJoinedTokens(parts, [Classify(x), Classify(y), Classify(z)]);
    ParseThreeTokens(Classify(x), Classify(y), Classify(z));
  }

  /** One comma-free piece contributes its own indices. */
  lemma ParseOnePiece(x: string)
    requires ',' !in x
    ensures Parse(x) == TokenIndices(Classify(x))
  {
    assert Join([x], ',') == x;
    ParseJoinedTokens([x], [Classify(x)]);
    ParseOneToken(Classify(x));
  }

  /** A lone `"a-b"` reads as the one span token, `range(a - 1, b)`. */
  lemma ParseSpanOnly(a: nat, b: nat, range: string)
    requires range == Show(a) + "-" + Show(b)
    ensures Parse(range) == TokenIndices(Span(a, b))
  {
    ClassifySpan(a, b);
    ParseOnePiece(range);
  }

  /** The indices of a span, a page and a span, glued in order. */
  lemma SpanSingleSpanIndices(a: nat, b: nat, c: nat, d: nat, e: nat)
    ensures Both(Both(TokenIndices(Span(a, b)), TokenIndices(Single(c))), TokenIndices(Span(d, e)))
         == Some(Interval(a - 1, b) + [c - 1] + Interval(d - 1, e))
  {
  }

  /** `"a-b,c,d-e"` reads as the tokens span, page, span. */
  lemma ParseSpanSingleSpanTokens(a: nat, b: nat, c: nat, d: nat, e: nat)
    ensures Parse(Show(a) + "-" + Show(b) + "," + Show(c) + "," + (Show(d) + "-" + Show(e)))
         == Both(Both(TokenIndices(Span(a, b)), TokenIndices(Single(c))), TokenIndices(Span(d, e)))
  {
    ParseThreePieces(Show(a) + "-" + Show(b), Show(c), Show(d) + "-" + Show(e));
    ClassifySpan(a, b);
    ClassifySingle(c);
    ClassifySpan(d, e);
  }

  /**
   * An expression of the documented shape `"a-b,c,d-e"` reads as the span
   * `a..b`, then the page `c`, then the span `d..e`, in that order.
   */
  lemma ParseSpanSingleSpan(a: nat, b: nat, c: nat, d: nat, e: nat)
    ensures Parse(Show(a) + "-" + Show(b) + "," + Show(c) + "," + (Show(d) + "-" + Show(e)))
         == Some(Interval(a - 1, b) + [c - 1] + Interval(d - 1, e))
  {
    ParseSpanSingleSpanTokens(a, b, c, d, e);
    SpanSingleSpanIndices(a, b, c, d, e);
  }

  /** The documented example: `"1-3,5,7-9"` gives `[0, 1, 2, 4, 6, 7, 8]`. */
  lemma ParseExample()
    ensures Parse("1-3,5,7-9") == Some([0, 1, 2, 4, 6, 7, 8])
  {
    ExampleText();
    ParseSpanSingleSpan(1, 3, 5, 7, 9);
    ExampleIndices();
  }

  lemma ExampleText()
    ensures Show(1) + "-" + Show(3) + "," + Show(5) + "," + (Show(7) + "-" + Show(9)) == "1-3,5,7-9"
  {
    assert Show(1) == "1" && Show(3) == "3" && Show(5) == "5" && Show(7) == "7" && Show(9) == "9";
  }

  lemma ExampleIndices()
    ensures Interval(1 - 1, 3) + [5 - 1] + Interval(7 - 1, 9) == [0, 1, 2, 4, 6, 7, 8]
  {
    assert Interval(0, 3) == [0, 1, 2];
    assert Interval(6, 9) == [6, 7, 8];
  }

  lemma ParseOneToken(t: Token)
    ensures ParseTokens([t]) == TokenIndices(t)
  {
    assert [t][1..] == [];
    var x := TokenIndices(t);
    if x.Some? {
      assert x.value + [] == x.value;
    }
  }

  /** Reading one more piece extends the result of the pieces before it. */
  lemma ParsePrefixStep(tokens: seq<Token>, i: nat, pages: seq<int>)
    requires i < |tokens|
    requires ParseTokens(tokens[..i]) == Some(pages)
    ensures ParseTokens(tokens[..i + 1]) == Both(Some(pages), TokenIndices(tokens[i]))
  {
    assert tokens[..i + 1] == tokens[..i] + [tokens[i]];
    ParseTokensAppend(tokens[..i], [tokens[i]]);
    ParseOneToken(tokens[i]);
  }

  /** One malformed piece anywhere fails the whole parse. */
  lemma ParseMalformedAt(tokens: seq<Token>, i: nat)
    requires i < |tokens| && tokens[i] == Malformed
    ensures ParseTokens(tokens) == None
  {
    assert tokens == tokens[..i] + tokens[i..];
    ParseTokensAppend(tokens[..i], tokens[i..]);
    assert tokens[i..][0] == Malformed;
  }

  lemma TokenAt(expr: string, i: nat)
    requires i < |Split(expr, ',')|
    ensures Tokens(expr)[i] == Classify(Split(expr, ',')[i])
  {
  }

  /** `map(int, part.split('-'))` or `int(part)`: reading one comma-separated piece. */
  method ReadToken(part: string) returns (t: Token)
    ensures t == Classify(part)
  {
    if '-' in part {
      var sides := Split(part, '-');
      if |sides| != 2 {
        return Malformed;
      }
      var start := ParseInt(sides[0]);
      var end := ParseInt(sides[1]);
      if start.None? || end.None? {
        return Malformed;
      }
      t := Span(start.value, end.value);
    } else {
      var p := ParseInt(part);
      if p.None? {
        return Malformed;
      }
      t := Single(p.value);
    }
  }

  /**
   * `_parse_page_range`: splits on commas and extends the page list token by
   * token; a malformed token makes it fail (the source raises, and every
   * caller turns that into a failed operation).
   */
  method ParsePageRange(expr: string) returns (r: Option<seq<int>>)
    ensures r == Parse(expr)
  {
    var parts := Split(expr, ',');
    ghost var tokens := Tokens(expr);
    var pages: seq<int> := [];
    var i := 0;
    while i < |parts|
      invariant 0 <= i <= |parts|
      invariant ParseTokens(tokens[..i]) == Some(pages)
    {
      var t := ReadToken(parts[i]);
      TokenAt(expr, i);
      var more := TokenIndices(t);
      if more.None? {
        ParseMalformedAt(tokens, i);
        return None;
      }
      ParsePrefixStep(tokens, i, pages);
      pages := pages + more.value;
      i := i + 1;
    }
    assert tokens[..i] == tokens;
    r := Some(pages);
  }

  /** `[i for i in indices if 0 <= i < n]`: the in-bounds indices, in order, duplicates kept. */
  function KeepInBounds(indices: seq<int>, n: int): (r: seq<int>)
    ensures |r| <= |indices|
    ensures forall j :: 0 <= j < |r| ==> 0 <= r[j] < n
    ensures (forall j :: 0 <= j < |indices| ==> 0 <= indices[j] < n) ==> r == indices
    decreases |indices|
  {
    if indices == [] then []
    else
      assert indices == [indices[0]] + indices[1..];
      (if 0 <= indices[0] < n then [indices[0]] else []) + KeepInBounds(indices[1..], n)
  }

  /** Every in-bounds index is kept as often as it occurs. */
  lemma {:induction false} KeepInBoundsCounts(indices: seq<int>, n: int, x: int)
    requires 0 <= x < n
    ensures multiset(KeepInBounds(indices, n))[x] == multiset(indices)[x]
    decreases |indices|
  {
    if indices != [] {
      assert indices == [indices[0]] + indices[1..];
      KeepInBoundsCounts(indices[1..], n, x);
    }
  }

  /** `[p - 1 for p in numbers if 1 <= p <= n]`: one-based page numbers to
      zero-based indices, out-of-range numbers dropped, order and duplicates kept. */
  function SelectOneBased(numbers: seq<int>, n: int): (r: seq<int>)
    ensures |r| <= |numbers|
    ensures forall j :: 0 <= j < |r| ==> 0 <= r[j] < n
    decreases |numbers|
  {
    if numbers == [] then []
    else
      assert numbers == [numbers[0]] + numbers[1..];
      (if 1 <= numbers[0] <= n then [numbers[0] - 1] else []) + SelectOneBased(numbers[1..], n)
  }

  /** Every page number lowered by one. */
  function Lowered(numbers: seq<int>): (r: seq<int>)
    ensures |r| == |numbers| && forall j :: 0 <= j < |r| ==> r[j] == numbers[j] - 1
  {
    seq(|numbers|, j requires 0 <= j < |numbers| => numbers[j] - 1)
  }

  /** Index `x` of an existing page is selected as often as the number `x + 1` was given. */
  lemma SelectOneBasedCounts(numbers: seq<int>, n: int, x: int)
    requires 0 <= x < n
    ensures multiset(SelectOneBased(numbers, n))[x] == multiset(numbers)[x + 1]
  {
    SelectIsShiftedFilter(numbers, n);
    KeepInBoundsCounts(Lowered(numbers), n, x);
    LoweredCounts(numbers, x);
  }

  /** Lowering every number by one moves each count down by one. */
  lemma {:induction false} LoweredCounts(numbers: seq<int>, x: int)
    ensures multiset(Lowered(numbers))[x] == multiset(numbers)[x + 1]
    decreases |numbers|
  {
    if numbers != [] {
      LoweredCounts(numbers[1..], x);
      SingletonShift(numbers[0], x);
      ConsCount(numbers, x + 1);
      ConsCount(Lowered(numbers), x);
      assert Lowered(numbers)[0] == numbers[0] - 1;
      assert Lowered(numbers)[1..] == Lowered(numbers[1..]);
    }
  }

  /** A count in a sequence is the count in its head plus the count in its tail. */
  lemma ConsCount(s: seq<int>, x: int)
    requires s != []
    ensures multiset(s)[x] == multiset([s[0]])[x] + multiset(s[1..])[x]
  {
    assert s == [s[0]] + s[1..];
  }

  lemma SingletonShift(h: int, x: int)
    ensures multiset([h - 1])[x] == multiset([h])[x + 1]
  {
    if h == x + 1 {
      assert multiset([h - 1])[x] == 1;
    } else {
      assert multiset([h])[x + 1] == 0;
      assert multiset([h - 1])[x] == 0;
    }
  }

  /** Selecting one-based numbers is filtering the lowered numbers by the zero-based bounds. */
  lemma {:induction false} SelectIsShiftedFilter(numbers: seq<int>, n: int)
    ensures SelectOneBased(numbers, n) == KeepInBounds(Lowered(numbers), n)
    decreases |numbers|
  {
    if numbers != [] {
      var lowered := Lowered(numbers);
      SelectIsShiftedFilter(numbers[1..], n);
      assert lowered[0] == numbers[0] - 1;
      assert lowered[1..] == Lowered(numbers[1..]);
      assert KeepInBounds(lowered, n) ==
        (if 0 <= lowered[0] < n then [lowered[0]] else []) + KeepInBounds(lowered[1..], n);
    }
  }
}
