/**
 * The client's parser of the legacy text game state (parse_game_state in
 * snake_client.py):  "<snakes>|<snacks>", snake cells separated by "*",
 * snack cells by "**", each cell written "(x,y)".  Any malformed part makes
 * the whole result `([], [])`.
 */
module StateParser {
  import opened Wrappers

  /** A cell as the parser returns it: the tuple of integers of one fragment. */
  type Cell = seq<int>

  // ---------------------------------------------------------------------
  // str.split with a non-empty separator

  /** `s.split(sep)`: the pieces between non-overlapping occurrences of `sep`, found left to right. */
  function Split(s: string, sep: string): (parts: seq<string>)
    requires sep != []
    ensures |parts| >= 1
    decreases |s|
  {
    if |s| < |sep| then [s]
    else if s[..|sep|] == sep then [[]] + Split(s[|sep|..], sep)
    else
      var rest := Split(s[1..], sep);
      [[s[0]] + rest[0]] + rest[1..]
  }

  /** `sep.join(parts)`. */
  function Join(parts: seq<string>, sep: string): string
    requires |parts| >= 1
  {
    if |parts| == 1 then parts[0] else parts[0] + sep + Join(parts[1..], sep)
  }

  /** Prepending a character to the first piece prepends it to the joined string. */
  lemma JoinPrependFirst(x: char, parts: seq<string>, sep: string)
    requires |parts| >= 1
    ensures Join([[x] + parts[0]] + parts[1..], sep) == [x] + Join(parts, sep)
  {
    var longer := [[x] + parts[0]] + parts[1..];
    if |parts| > 1 {
      assert longer[1..] == parts[1..];
    }
  }

  /** Splitting loses nothing: joining the pieces back gives the original string. */
  lemma {:induction false} JoinSplit(s: string, sep: string)
    requires sep != []
    ensures Join(Split(s, sep), sep) == s
    decreases |s|
  {
    if |s| < |sep| {
      assert Split(s, sep) == [s];
    } else if s[..|sep|] == sep {
      var rest := Split(s[|sep|..], sep);
      assert Split(s, sep) == [[]] + rest;
      JoinSplit(s[|sep|..], sep);
      assert ([[]] + rest)[1..] == rest;
      assert Join([[]] + rest, sep) == [] + sep + Join(rest, sep);
      assert s == sep + s[|sep|..];
    } else {
      var rest := Split(s[1..], sep);
      assert Split(s, sep) == [[s[0]] + rest[0]] + rest[1..];
      JoinSplit(s[1..], sep);
      JoinPrependFirst(s[0], rest, sep);
      assert s == [s[0]] + s[1..];
    }
  }

  /** A string without the separator's first character is a single piece. */
  lemma {:induction false} SplitWithoutSep(p: string, sep: string)
    requires sep != [] && sep[0] !in p
    ensures Split(p, sep) == [p]
    decreases |p|
  {
    if |p| >= |sep| {
      assert p[..|sep|][0] == p[0];
      SplitWithoutSep(p[1..], sep);
      assert [p[0]] + p[1..] == p;
    }
  }

  /** A first piece without the separator's first character is split off at the separator after it. */
  lemma {:induction false} SplitAfterPiece(p: string, sep: string, rest: string)
    requires sep != [] && sep[0] !in p
    ensures Split(p + sep + rest, sep) == [p] + Split(rest, sep)
    decreases |p|
  {
    var s := p + sep + rest;
    if p == [] {
      assert s == sep + rest;
      assert s[..|sep|] == sep && s[|sep|..] == rest;
    } else {
      assert s[..|sep|][0] == p[0];
      assert s[1..] == p[1..] + sep + rest;
      SplitAfterPiece(p[1..], sep, rest);
      assert [p[0]] + p[1..] == p;
    }
  }

  /** Joining pieces that do not contain the separator's first character can be undone by splitting. */
  lemma {:induction false} SplitJoin(parts: seq<string>, sep: string)
    requires sep != [] && |parts| >= 1
    requires forall i :: 0 <= i < |parts| ==> sep[0] !in parts[i]
    ensures Split(Join(parts, sep), sep) == parts
  {
    if |parts| == 1 {
      SplitWithoutSep(parts[0], sep);
    } else {
      SplitJoin(parts[1..], sep);
      SplitAfterPiece(parts[0], sep, Join(parts[1..], sep));
      assert [parts[0]] + parts[1..] == parts;
    }
  }

  /** How many times `c` occurs in `s`. */
  function Count(s: string, c: char): nat
  {
    if s == [] then 0 else (if s[0] == c then 1 else 0) + Count(s[1..], c)
  }

  /** Splitting on one character gives one more piece than it has occurrences. */
  lemma {:induction false} SplitCount(s: string, c: char)
    ensures |Split(s, [c])| == Count(s, c) + 1
    decreases |s|
  {
    if s != [] {
      SplitCount(s[1..], c);
      assert s[..1] == [s[0]];
    }
  }

  // ---------------------------------------------------------------------
  // str.strip with a set of characters

  /** How many leading characters of `s` are in `cs`. */
  function Leading(s: string, cs: set<char>): (n: nat)
    ensures n <= |s|
    ensures forall k :: 0 <= k < n ==> s[k] in cs
    ensures n < |s| ==> s[n] !in cs
  {
    if s != [] && s[0] in cs then 1 + Leading(s[1..], cs) else 0
  }

  /** How many trailing characters of `s` are in `cs`. */
  function Trailing(s: string, cs: set<char>): (n: nat)
    ensures n <= |s|
    ensures forall k :: |s| - n <= k < |s| ==> s[k] in cs
    ensures n < |s| ==> s[|s| - 1 - n] !in cs
  {
    if s != [] && s[|s| - 1] in cs then 1 + Trailing(s[..|s| - 1], cs) else 0
  }

  /**
   * `s.strip(chars)`: the middle of `s` left when its leading and trailing
   * characters from `cs` are removed.
   */
  function Strip(s: string, cs: set<char>): (r: string)
    ensures Leading(s, cs) + |r| <= |s| && r == s[Leading(s, cs)..Leading(s, cs) + |r|]
    ensures forall k :: Leading(s, cs) + |r| <= k < |s| ==> s[k] in cs
    ensures r != [] ==> r[0] !in cs && r[|r| - 1] !in cs
  {
    var lo := Leading(s, cs);
    var t := Trailing(s[lo..], cs);
    s[lo..|s| - t]
  }

  /** The characters stripped from each fragment. */
  const Parens: set<char> := {'(', ')'}

  // ---------------------------------------------------------------------
  // int() on a string

  predicate IsDigit(ch: char)
  {
    '0' <= ch <= '9'
  }

  predicate AllDigits(ds: string)
  {
    forall k :: 0 <= k < |ds| ==> IsDigit(ds[k])
  }

  /** The value of a string of decimal digits, most significant first. */
  function DigitsValue(ds: string): nat
    requires AllDigits(ds)
  {
    if ds == [] then 0 else DigitsValue(ds[..|ds| - 1]) * 10 + (ds[|ds| - 1] as int - '0' as int)
  }

  /**
   * `int(s)` restricted to an optional sign followed by at least one ASCII
   * digit. None also on surrounding whitespace, `_` between digits and
   * non-ASCII digits, which `int` accepts.
   */
  function ParseInt(s: string): (r: Option<int>)
    ensures r.Some? <==>
      (s != [] && AllDigits(s)) || (|s| >= 2 && (s[0] == '+' || s[0] == '-') && AllDigits(s[1..]))
  {
    if s != [] && (s[0] == '+' || s[0] == '-') then
      var digits := s[1..];
      if digits != [] && AllDigits(digits) then
        Some(if s[0] == '-' then -(DigitsValue(digits) as int) else DigitsValue(digits))
      else None
    else if s != [] && AllDigits(s) then Some(DigitsValue(s))
    else None
  }

  // ---------------------------------------------------------------------
  // parse_game_state

  /** The integers of a list of components, or None as soon as one is not an integer. */
  function ParseInts(comps: seq<string>): (r: Option<seq<int>>)
    ensures r.Some? <==> forall i :: 0 <= i < |comps| ==> ParseInt(comps[i]).Some?
    ensures r.Some? ==> (|r.value| == |comps| &&
      forall i :: 0 <= i < |comps| ==> ParseInt(comps[i]) == Some(r.value[i]))
  {
    if comps == [] then Some([])
    else match (ParseInt(comps[0]), ParseInts(comps[1..]))
      case (Some(n), Some(ns)) => Some([n] + ns)
      case _ => None
  }

  /** `tuple(map(int, pos.strip('()').split(',')))`. */
  function ParseCell(fragment: string): (r: Option<Cell>)
    ensures r.Some? ==> |r.value| == Count(Strip(fragment, Parens), ',') + 1
  {
    SplitCount(Strip(fragment, Parens), ',');
    ParseInts(Split(Strip(fragment, Parens), ","))
  }

  /** The fragments the comprehension keeps (`if pos`), in order. */
  function NonEmpty(fragments: seq<string>): (kept: seq<string>)
    ensures |kept| <= |fragments|
    ensures forall i :: 0 <= i < |kept| ==> kept[i] != [] && kept[i] in fragments
    ensures forall f :: f in fragments && f != [] ==> f in kept
  {
    if fragments == [] then []
    else (if fragments[0] == [] then [] else [fragments[0]]) + NonEmpty(fragments[1..])
  }

  /** Filtering a concatenation filters each part, in order. */
  lemma {:induction false} NonEmptyAppend(a: seq<string>, b: seq<string>)
    ensures NonEmpty(a + b) == NonEmpty(a) + NonEmpty(b)
    decreases |a|
  {
    if a != [] {
      assert (a + b)[1..] == a[1..] + b;
      NonEmptyAppend(a[1..], b);
    } else {
      assert a + b == b;
    }
  }

  /** One fragment is kept exactly when it is non-empty. */
  lemma NonEmptySingle(f: string)
    ensures NonEmpty([f]) == (if f == [] then [] else [f])
  {
    assert [f][1..] == [];
  }

  /** Every fragment is a well-formed cell. */
  predicate AllCells(fragments: seq<string>)
  {
    forall i :: 0 <= i < |fragments| ==> ParseCell(fragments[i]).Some?
  }

  /** `cells` are the cells of `fragments`, in order. */
  predicate CellsOf(fragments: seq<string>, cells: seq<Cell>)
  {
    |cells| == |fragments| && forall i :: 0 <= i < |fragments| ==> ParseCell(fragments[i]) == Some(cells[i])
  }

  /** The cells of a list of fragments, in order, or None if any of them is malformed. */
  function ParseAllCells(fragments: seq<string>): (r: Option<seq<Cell>>)
    ensures r.Some? <==> AllCells(fragments)
    ensures r.Some? ==> CellsOf(fragments, r.value)
  {
    if fragments == [] then Some([])
    else match (ParseCell(fragments[0]), ParseAllCells(fragments[1..]))
      case (Some(cell), Some(cells)) => Some([cell] + cells)
      case (None, _) => None
      case (_, None) =>
        assert !AllCells(fragments[1..]);
        None
  }

  /**
   * The two list comprehensions over the text left and right of the '|':
   * the cells of the non-empty fragments (`if pos`), or `([], [])` as soon as
   * one of them is malformed.
   */
  function ParseHalves(left: string, right: string): (r: (seq<Cell>, seq<Cell>))
    ensures
      var snakeFragments := NonEmpty(Split(left, "*"));
      var snackFragments := NonEmpty(Split(right, "**"));
      if AllCells(snakeFragments) && AllCells(snackFragments)
      then CellsOf(snakeFragments, r.0) && CellsOf(snackFragments, r.1)
      else r == ([], [])
  {
    var snakes := ParseAllCells(NonEmpty(Split(left, "*")));
    var snacks := ParseAllCells(NonEmpty(Split(right, "**")));
    if snakes.Some? && snacks.Some? then (snakes.value, snacks.value) else ([], [])
  }

  /** parse_game_state: the snake cells and snack cells, or `([], [])` on any error. */
  function ParseGameState(state: string): (r: (seq<Cell>, seq<Cell>))
    ensures Count(state, '|') != 1 ==> r == ([], [])
  {
    var halves := Split(state, "|");
    SplitCount(state, '|');
    if |halves| != 2 then ([], []) else ParseHalves(halves[0], halves[1])
  }

  /** A state with exactly one '|' is read as its two halves. */
  lemma ParseGameStateOf(left: string, right: string)
    requires '|' !in left && '|' !in right
    ensures ParseGameState(left + "|" + right) == ParseHalves(left, right)
  {
    assert Join([left, right], "|") == left + "|" + right;
    SplitJoin([left, right], "|");
  }

  // ---------------------------------------------------------------------
  // The text a server writes for a state, as a reference for the parser

  /** `str(n)` for a natural number. */
  function NatText(n: nat): (t: string)
    ensures t != [] && AllDigits(t) && DigitsValue(t) == n
  {
    var last := (('0' as int) + n % 10) as char;
    if n < 10 then
      assert [last][..0] == [];
      [last]
    else
      var t := NatText(n / 10) + [last];
      assert t[..|t| - 1] == NatText(n / 10);
      t
  }

  /** `str(n)`. */
  function IntText(n: int): string
  {
    if n < 0 then "-" + NatText(-n) else NatText(n)
  }

  /** int() reads back what str() writes. */
  lemma ParseIntText(n: int)
    ensures ParseInt(IntText(n)) == Some(n)
  {
    if n < 0 {
      assert IntText(n)[1..] == NatText(-n);
    }
  }

  predicate Avoids(s: string, bad: set<char>)
  {
    forall k :: 0 <= k < |s| ==> s[k] !in bad
  }

  lemma {:induction false} JoinAvoids(parts: seq<string>, sep: string, bad: set<char>)
    requires |parts| >= 1 && Avoids(sep, bad)
    requires forall i :: 0 <= i < |parts| ==> Avoids(parts[i], bad)
    ensures Avoids(Join(parts, sep), bad)
    ensures |Join(parts, sep)| >= |parts[0]|
  {
    if |parts| > 1 {
      JoinAvoids(parts[1..], sep, bad);
    }
  }

  /** `sep.join` of a possibly empty list. */
  function JoinAll(parts: seq<string>, sep: string): string
  {
    if parts == [] then "" else Join(parts, sep)
  }

  /** The texts of a cell's integers. */
  function IntTexts(cell: Cell): (texts: seq<string>)
    ensures |texts| == |cell|
    ensures forall i :: 0 <= i < |cell| ==> texts[i] == IntText(cell[i])
  {
    seq(|cell|, i requires 0 <= i < |cell| => IntText(cell[i]))
  }

  /** "(x,y)" for the cell [x, y]. */
  function FormatCell(cell: Cell): string
    requires cell != []
  {
    "(" + Join(IntTexts(cell), ",") + ")"
  }

  function FormatCells(cells: seq<Cell>): (texts: seq<string>)
    requires forall i :: 0 <= i < |cells| ==> cells[i] != []
    ensures |texts| == |cells|
    ensures forall i :: 0 <= i < |cells| ==> texts[i] == FormatCell(cells[i])
  {
    seq(|cells|, i requires 0 <= i < |cells| => FormatCell(cells[i]))
  }

  /** The state text for these snake cells and snack cells. */
  function FormatState(snakes: seq<Cell>, snacks: seq<Cell>): string
    requires forall i :: 0 <= i < |snakes| ==> snakes[i] != []
    requires forall i :: 0 <= i < |snacks| ==> snacks[i] != []
  {
    JoinAll(FormatCells(snakes), "*") + "|" + JoinAll(FormatCells(snacks), "**")
  }

  /** The characters that never occur in the text of an integer. */
  const Punctuation: set<char> := {'(', ')', ',', '*', '|'}

  lemma IntTextAvoids(n: int)
    ensures IntText(n) != [] && Avoids(IntText(n), Punctuation)
  {
    var t := IntText(n);
    if n < 0 {
      forall k | 0 <= k < |t| ensures t[k] !in Punctuation {
        if k > 0 {
          assert t[k] == NatText(-n)[k - 1];
        }
      }
    }
  }

  /** The joined integer texts of a cell, without its parentheses. */
  lemma CellBodyAvoids(cell: Cell)
    requires cell != []
    ensures var body := Join(IntTexts(cell), ",");
      body != [] && Avoids(body, Punctuation - {','})
  {
    var texts := IntTexts(cell);
    forall i | 0 <= i < |texts| ensures Avoids(texts[i], Punctuation - {','}) {
      IntTextAvoids(cell[i]);
    }
    IntTextAvoids(cell[0]);
    JoinAvoids(texts, ",", Punctuation - {','});
  }

  lemma FormatCellAvoids(cell: Cell)
    requires cell != []
    ensures FormatCell(cell) != [] && Avoids(FormatCell(cell), {'*', '|'})
  {
    var body := Join(IntTexts(cell), ",");
    CellBodyAvoids(cell);
    var s := FormatCell(cell);
    forall k | 0 <= k < |s| ensures s[k] !in {'*', '|'} {
      if 0 < k < |s| - 1 {
        assert s[k] == body[k - 1];
      }
    }
  }

  /** Stripping the parentheses of a formatted cell leaves its joined integers. */
  lemma StripFormatCell(cell: Cell)
    requires cell != []
    ensures Strip(FormatCell(cell), Parens) == Join(IntTexts(cell), ",")
  {
    var body := Join(IntTexts(cell), ",");
    CellBodyAvoids(cell);
    var s := FormatCell(cell);
    assert s[0] == '(' && s[1] == body[0] && s[|s| - 1] == ')' && s[|s| - 2] == body[|body| - 1];
    var lo := Leading(s, Parens);
    assert lo == 1;
    var r := Strip(s, Parens);
    assert r == s[1..1 + |r|];
    assert |r| == |body|;
    assert s[1..1 + |body|] == body;
  }

  /** A formatted cell parses back to the cell. */
  lemma ParseFormatCell(cell: Cell)
    requires cell != []
    ensures ParseCell(FormatCell(cell)) == Some(cell)
  {
    var texts := IntTexts(cell);
    StripFormatCell(cell);
    forall i | 0 <= i < |texts| ensures ',' !in texts[i] && ParseInt(texts[i]) == Some(cell[i]) {
      IntTextAvoids(cell[i]);
      ParseIntText(cell[i]);
    }
    SplitJoin(texts, ",");
    var r := ParseInts(texts);
    assert r.value == cell;
  }

  /** Formatted cells joined by a separator split and parse back to the cells. */
  lemma ParseFormatCells(cells: seq<Cell>, sep: string)
    requires sep == "*" || sep == "**"
    requires forall i :: 0 <= i < |cells| ==> cells[i] != []
    ensures ParseAllCells(NonEmpty(Split(JoinAll(FormatCells(cells), sep), sep))) == Some(cells)
  {
    var texts := FormatCells(cells);
    if cells == [] {
      assert Split("", sep) == [""];
    } else {
      forall i | 0 <= i < |texts| ensures sep[0] !in texts[i] && texts[i] != [] {
        FormatCellAvoids(cells[i]);
      }
      SplitJoin(texts, sep);
      NonEmptyOfNonEmpty(texts);
      forall i | 0 <= i < |texts| ensures ParseCell(texts[i]) == Some(cells[i]) {
        ParseFormatCell(cells[i]);
      }
      assert ParseAllCells(texts).value == cells;
    }
  }

  lemma {:induction false} NonEmptyOfNonEmpty(fragments: seq<string>)
    requires forall i :: 0 <= i < |fragments| ==> fragments[i] != []
    ensures NonEmpty(fragments) == fragments
  {
    if fragments != [] {
      NonEmptyOfNonEmpty(fragments[1..]);
      assert [fragments[0]] + fragments[1..] == fragments;
    }
  }

  /** The parser reads back every state text written for non-empty cells. */
  lemma ParseFormatState(snakes: seq<Cell>, snacks: seq<Cell>)
    requires forall i :: 0 <= i < |snakes| ==> snakes[i] != []
    requires forall i :: 0 <= i < |snacks| ==> snacks[i] != []
    ensures ParseGameState(FormatState(snakes, snacks)) == (snakes, snacks)
  {
    var left := JoinAll(FormatCells(snakes), "*");
    var right := JoinAll(FormatCells(snacks), "**");
    forall i | 0 <= i < |snakes| ensures Avoids(FormatCells(snakes)[i], {'|'}) {
      FormatCellAvoids(snakes[i]);
    }
    forall i | 0 <= i < |snacks| ensures Avoids(FormatCells(snacks)[i], {'|'}) {
      FormatCellAvoids(snacks[i]);
    }
    if snakes != [] {
      JoinAvoids(FormatCells(snakes), "*", {'|'});
    }
    if snacks != [] {
      JoinAvoids(FormatCells(snacks), "**", {'|'});
    }
    ParseGameStateOf(left, right);
    ParseFormatCells(snakes, "*");
    ParseFormatCells(snacks, "**");
  }
}
