/** like_regex: LIKE patterns compiled to regular-expression text, and what searching it means. */
module LikeRegex {
  import opened Wrappers

  // ---------- the compiler, on text ----------

  /** The characters `re.escape` puts a backslash before. */
  predicate IsSpecial(c: char) {
    c in {'(', ')', '[', ']', '{', '}', '?', '*', '+', '-', '|', '^', '$', '\\', '.', '&', '~', '#',
          ' ', '\t', '\n', '\r', '\U{0B}', '\U{0C}'}
  }

  function Escape(value: string): string {
    if value == "" then ""
    else (if IsSpecial(value[0]) then ['\\', value[0]] else [value[0]]) + Escape(value[1..])
  }

  /** `str.replace` of a single character. */
  function Replace(text: string, c: char, with: string): string {
    if text == "" then ""
    else (if text[0] == c then with else [text[0]]) + Replace(text[1..], c, with)
  }

  predicate StartsWithPercent(value: string) {
    value != "" && value[0] == '%'
  }

  predicate EndsWithPercent(value: string) {
    value != "" && value[|value| - 1] == '%'
  }

  /** The pattern text built by like_regex. */
  function LikePattern(value: string): string {
    var text := Replace(Replace(Escape(value), '%', ".*"), '_', ".");
    (if StartsWithPercent(value) then "" else "^") + text + (if EndsWithPercent(value) then "" else "$")
  }

  // ---------- reading regular expressions ----------

  datatype Item = Literal(c: char) | Any | AnyStar | Begin | End

  predicate IsAlphanumeric(c: char) {
    'a' <= c <= 'z' || 'A' <= c <= 'Z' || '0' <= c <= '9'
  }

  /** A parser for literals, escaped characters, `.`, `.*` and the two anchors; any other use of the
      regular-expression syntax is rejected. */
  function Parse(text: string): Option<seq<Item>> {
    if text == "" then Some([])
    else if text[0] == '\\' then
      if |text| < 2 || IsAlphanumeric(text[1]) then None else Cons(Literal(text[1]), Parse(text[2..]))
    else if text[0] == '.' then
      if |text| >= 2 && text[1] == '*' then Cons(AnyStar, Parse(text[2..])) else Cons(Any, Parse(text[1..]))
    else if text[0] == '^' then Cons(Begin, Parse(text[1..]))
    else if text[0] == '$' then Cons(End, Parse(text[1..]))
    else if text[0] in {'(', ')', '[', ']', '{', '}', '?', '*', '+', '|'} then None
    else Cons(Literal(text[0]), Parse(text[1..]))
  }

  function Cons(item: Item, rest: Option<seq<Item>>): Option<seq<Item>> {
    if rest.None? then None else Some([item] + rest.value)
  }

  /** Does `items` match from position `i`? DOTALL is set and MULTILINE is not; `$` also matches
      before a final newline. `norm` is the identity, or case folding for ILIKE. */
  ghost predicate MatchesAt(items: seq<Item>, s: string, i: nat, norm: char -> char)
    requires i <= |s|
    decreases |items|
  {
    if items == [] then true
    else
      match items[0]
      case Literal(c) => i < |s| && norm(s[i]) == norm(c) && MatchesAt(items[1..], s, i + 1, norm)
      case Any => i < |s| && MatchesAt(items[1..], s, i + 1, norm)
      case AnyStar => exists j :: i <= j <= |s| && MatchesAt(items[1..], s, j, norm)
      case Begin => i == 0 && MatchesAt(items[1..], s, i, norm)
      case End => (i == |s| || (i == |s| - 1 && s[i] == '\n')) && MatchesAt(items[1..], s, i, norm)
  }

  ghost predicate Searches(items: seq<Item>, s: string, norm: char -> char) {
    exists i :: 0 <= i <= |s| && MatchesAt(items, s, i, norm)
  }

  // ---------- what LIKE means ----------

  ghost predicate Like(p: string, s: string, norm: char -> char)
    decreases |p|
  {
    if p == "" then s == ""
    else if p[0] == '%' then exists k :: 0 <= k <= |s| && Like(p[1..], s[k..], norm)
    else s != "" && (p[0] == '_' || norm(s[0]) == norm(p[0])) && Like(p[1..], s[1..], norm)
  }

  /** A pattern's parts match the parts of some cut of the string. */
  lemma {:induction false} LikeConcat(p: string, q: string, s: string, norm: char -> char)
    ensures Like(p + q, s, norm) <==> exists i :: 0 <= i <= |s| && Like(p, s[..i], norm) && Like(q, s[i..], norm)
    decreases |p|
  {
    if p == "" {
      assert p + q == q && s[0..] == s && s[..0] == "";
      if i :| 0 <= i <= |s| && Like(p, s[..i], norm) && Like(q, s[i..], norm) { assert i == 0; }
    } else {
      assert (p + q)[0] == p[0] && (p + q)[1..] == p[1..] + q;
      if p[0] == '%' { LikeConcatAfterStar(p, q, s, norm); } else { LikeConcatAfterOne(p, q, s, norm); }
    }
  }

  lemma {:induction false} LikeConcatAfterStar(p: string, q: string, s: string, norm: char -> char)
    requires p != "" && p[0] == '%' && (p + q)[0] == p[0] && (p + q)[1..] == p[1..] + q
    ensures Like(p + q, s, norm) <==> exists i :: 0 <= i <= |s| && Like(p, s[..i], norm) && Like(q, s[i..], norm)
    decreases |p|, 0
  {
    if Like(p + q, s, norm) {
      var k :| 0 <= k <= |s| && Like(p[1..] + q, s[k..], norm);
      LikeConcat(p[1..], q, s[k..], norm);
      var j :| 0 <= j <= |s[k..]| && Like(p[1..], s[k..][..j], norm) && Like(q, s[k..][j..], norm);
      assert s[..k + j][k..] == s[k..][..j] && s[k + j..] == s[k..][j..];
      assert Like(p, s[..k + j], norm);
    }
    if i :| 0 <= i <= |s| && Like(p, s[..i], norm) && Like(q, s[i..], norm) {
      var k :| 0 <= k <= |s[..i]| && Like(p[1..], s[..i][k..], norm);
      LikeConcat(p[1..], q, s[k..], norm);
      assert s[k..][..i - k] == s[..i][k..] && s[k..][i - k..] == s[i..];
    }
  }

  lemma {:induction false} LikeConcatAfterOne(p: string, q: string, s: string, norm: char -> char)
    requires p != "" && p[0] != '%' && (p + q)[0] == p[0] && (p + q)[1..] == p[1..] + q
    ensures Like(p + q, s, norm) <==> exists i :: 0 <= i <= |s| && Like(p, s[..i], norm) && Like(q, s[i..], norm)
    decreases |p|, 0
  {
    if s != "" { LikeConcat(p[1..], q, s[1..], norm); }
    if Like(p + q, s, norm) {
      var j :| 0 <= j <= |s[1..]| && Like(p[1..], s[1..][..j], norm) && Like(q, s[1..][j..], norm);
      assert s[..j + 1][1..] == s[1..][..j] && s[j + 1..] == s[1..][j..] && s[..j + 1][0] == s[0];
      assert Like(p, s[..j + 1], norm);
    }
    if i :| 0 <= i <= |s| && Like(p, s[..i], norm) && Like(q, s[i..], norm) {
      assert i > 0 && s[..i][1..] == s[1..][..i - 1] && s[i..] == s[1..][i - 1..];
    }
  }

  /** One pattern character: `%` matches every string, `_` every character, any other itself. */
  lemma LikeOne(c: char, s: string, norm: char -> char)
    ensures Like([c], s, norm) <==>
              if c == '%' then true else if c == '_' then |s| == 1 else |s| == 1 && norm(s[0]) == norm(c)
  {
    assert [c][1..] == "" && s[|s|..] == "";
    if c == '%' {
      assert Like("", s[|s|..], norm);
    } else if s != "" {
      assert s[1..] == "" <==> |s| == 1;
    }
  }

  // ---------- the text parses to the intended items ----------

  function ItemOf(c: char): Item {
    if c == '%' then AnyStar else if c == '_' then Any else Literal(c)
  }

  function Body(value: string): seq<Item> {
    if value == "" then [] else [ItemOf(value[0])] + Body(value[1..])
  }

  function Piece(c: char): string {
    if c == '%' then ".*" else if c == '_' then "." else if IsSpecial(c) then ['\\', c] else [c]
  }

  function Pieces(value: string): string {
    if value == "" then "" else Piece(value[0]) + Pieces(value[1..])
  }

  lemma {:induction false} ReplaceAppend(a: string, b: string, c: char, with: string)
    ensures Replace(a + b, c, with) == Replace(a, c, with) + Replace(b, c, with)
  {
    if a == "" {
      assert a + b == b;
    } else {
      assert (a + b)[1..] == a[1..] + b;
      ReplaceAppend(a[1..], b, c, with);
    }
  }

  lemma ReplaceOne(c: char, d: char, with: string)
    ensures Replace([c], d, with) == if c == d then with else [c]
  {
    assert [c][1..] == "";
  }

  lemma ReplaceTwo(c: char, d: char, with: string)
    requires d != '\\' && c != d
    ensures Replace(['\\', c], d, with) == ['\\', c]
  {
    ReplaceAppend(['\\'], [c], d, with);
    ReplaceOne('\\', d, with);
    ReplaceOne(c, d, with);
    assert ['\\', c] == ['\\'] + [c];
  }

  function EscapeOne(c: char): string {
    if IsSpecial(c) then ['\\', c] else [c]
  }

  lemma ReplacedPiece(c: char)
    ensures Replace(Replace(EscapeOne(c), '%', ".*"), '_', ".") == Piece(c)
  {
    if IsSpecial(c) {
      ReplaceTwo(c, '%', ".*");
      ReplaceTwo(c, '_', ".");
    } else if c == '%' {
      ReplaceOne(c, '%', ".*");
      ReplaceAppend(".", "*", '_', ".");
      ReplaceOne('.', '_', ".");
      ReplaceOne('*', '_', ".");
      assert ".*" == "." + "*";
    } else {
      ReplaceOne(c, '%', ".*");
      ReplaceOne(c, '_', ".");
    }
  }

  /** Escaping and the two replacements, done on the whole text, act on every character alone. */
  lemma {:induction false} TextIsPieces(value: string)
    ensures Replace(Replace(Escape(value), '%', ".*"), '_', ".") == Pieces(value)
  {
    if value != "" {
      TextIsPieces(value[1..]);
      var first, rest := EscapeOne(value[0]), Escape(value[1..]);
      assert Escape(value) == first + rest;
      ReplaceAppend(first, rest, '%', ".*");
      ReplaceAppend(Replace(first, '%', ".*"), Replace(rest, '%', ".*"), '_', ".");
      ReplacedPiece(value[0]);
    }
  }

  lemma NoLeadingStar(value: string, tail: string)
    requires tail == "" || tail == "$"
    ensures Pieces(value) + tail == "" || (Pieces(value) + tail)[0] != '*'
  {}

  lemma PieceParses(c: char, rest: string)
    requires rest == "" || rest[0] != '*'
    ensures Parse(Piece(c) + rest) == Cons(ItemOf(c), Parse(rest))
  {
    var text := Piece(c) + rest;
    if c == '%' {
      assert text[2..] == rest && text[0] == '.' && text[1] == '*';
    } else if c == '_' {
      assert text[1..] == rest && text[0] == '.';
      assert |rest| > 0 ==> text[1] == rest[0];
    } else if IsSpecial(c) {
      assert text[0] == '\\' && text[1] == c && text[2..] == rest;
    } else {
      assert text[0] == c && text[1..] == rest;
    }
  }

  lemma {:induction false} PiecesParse(value: string, tail: string)
    requires tail == "" || tail == "$"
    ensures Parse(Pieces(value) + tail) == Some(Body(value) + (if tail == "" then [] else [End]))
  {
    if value == "" {
      assert Pieces(value) + tail == tail;
      if tail == "$" {
        assert tail[1..] == "";
        assert Parse(tail) == Cons(End, Parse(""));
        assert [End] + [] == [End];
        assert Body(value) + [End] == [End];
      }
    } else {
      PiecesParse(value[1..], tail);
      NoLeadingStar(value[1..], tail);
      PieceParses(value[0], Pieces(value[1..]) + tail);
      assert Pieces(value) + tail == Piece(value[0]) + (Pieces(value[1..]) + tail);
      var end: seq<Item> := if tail == "" then [] else [End];
      assert Body(value) + end == [ItemOf(value[0])] + (Body(value[1..]) + end);
    }
  }

  function Items(value: string): seq<Item> {
    (if StartsWithPercent(value) then [] else [Begin]) + Body(value) +
    (if EndsWithPercent(value) then [] else [End])
  }

  lemma BeginParses(rest: string)
    ensures Parse("^" + rest) == Cons(Begin, Parse(rest))
  {
    assert ("^" + rest)[1..] == rest;
  }

  /** The pattern text is well formed, and no character of the value is read as syntax. */
  lemma PatternParses(value: string)
    ensures Parse(LikePattern(value)) == Some(Items(value))
  {
    TextIsPieces(value);
    var tail := if EndsWithPercent(value) then "" else "$";
    PiecesParse(value, tail);
    var rest := Pieces(value) + tail;
    if StartsWithPercent(value) {
      assert LikePattern(value) == rest;
      assert Items(value) == Body(value) + (if tail == "" then [] else [End]);
    } else {
      BeginParses(rest);
      assert LikePattern(value) == "^" + rest;
      assert Items(value) == [Begin] + (Body(value) + (if tail == "" then [] else [End]));
    }
  }

  // ---------- searching the items is LIKE ----------

  /** LIKE on the part of `s` from `i` up to `n`. */
  ghost predicate LikeWithin(p: string, s: string, i: nat, n: nat, norm: char -> char) {
    i <= n <= |s| && Like(p, s[i..n], norm)
  }

  /** A leading `%` tries every later start. */
  lemma StarSplits(p: string, s: string, i: nat, n: nat, norm: char -> char)
    requires p != "" && p[0] == '%' && n <= |s|
    ensures LikeWithin(p, s, i, n, norm) <==> exists j: nat :: i <= j && LikeWithin(p[1..], s, j, n, norm)
  {
    if i <= n {
      var t := s[i..n];
      if Like(p, t, norm) {
        var k :| 0 <= k <= |t| && Like(p[1..], t[k..], norm);
        assert t[k..] == s[i + k..n];
        assert LikeWithin(p[1..], s, i + k, n, norm);
      }
      if j: nat :| i <= j && LikeWithin(p[1..], s, j, n, norm) {
        assert t[j - i..] == s[j..n];
      }
    }
  }

  /** A `$` leaves two ends: the end of the string, or the position before a final newline. */
  ghost predicate LikeToEnd(p: string, s: string, i: nat, norm: char -> char) {
    || LikeWithin(p, s, i, |s|, norm)
    || (|s| > 0 && s[|s| - 1] == '\n' && LikeWithin(p, s, i, |s| - 1, norm))
  }

  lemma StarToEnd(p: string, s: string, i: nat, norm: char -> char)
    requires p != "" && p[0] == '%'
    ensures LikeToEnd(p, s, i, norm) <==> exists j: nat :: i <= j && LikeToEnd(p[1..], s, j, norm)
  {
    StarSplits(p, s, i, |s|, norm);
    if |s| > 0 { StarSplits(p, s, i, |s| - 1, norm); }
    if LikeWithin(p, s, i, |s|, norm) {
      var j: nat :| i <= j && LikeWithin(p[1..], s, j, |s|, norm);
      assert LikeToEnd(p[1..], s, j, norm);
    } else if LikeToEnd(p, s, i, norm) {
      var j: nat :| i <= j && LikeWithin(p[1..], s, j, |s| - 1, norm);
      assert LikeToEnd(p[1..], s, j, norm);
    }
  }

  lemma {:induction false} ClosedBody(p: string, s: string, i: nat, norm: char -> char)
    requires i <= |s|
    ensures MatchesAt(Body(p) + [End], s, i, norm) <==> LikeToEnd(p, s, i, norm)
    decreases |p|
  {
    var items := Body(p) + [End];
    if p != "" {
      var rest := Body(p[1..]) + [End];
      assert items == [ItemOf(p[0])] + rest && items[1..] == rest;
      if p[0] == '%' {
        StarToEnd(p, s, i, norm);
        forall j | i <= j <= |s| ensures MatchesAt(rest, s, j, norm) <==> LikeToEnd(p[1..], s, j, norm) {
          ClosedBody(p[1..], s, j, norm);
        }
        if j: nat :| i <= j && LikeToEnd(p[1..], s, j, norm) {
          assert MatchesAt(rest, s, j, norm);
        }
      } else if i < |s| {
        ClosedBody(p[1..], s, i + 1, norm);
        assert s[i..|s|][1..] == s[i + 1..|s|];
        if i < |s| - 1 { assert s[i..|s| - 1][1..] == s[i + 1..|s| - 1]; }
      }
    }
  }

  lemma {:induction false} OpenBody(p: string, s: string, i: nat, norm: char -> char)
    requires i <= |s| && EndsWithPercent(p)
    ensures MatchesAt(Body(p), s, i, norm) <==> LikeWithin(p, s, i, |s|, norm)
    decreases |p|
  {
    var items := Body(p);
    assert items == [ItemOf(p[0])] + Body(p[1..]) && items[1..] == Body(p[1..]);
    if p == "%" {
      assert MatchesAt(items[1..], s, |s|, norm);
      StarSplits(p, s, i, |s|, norm);
      assert LikeWithin(p[1..], s, |s|, |s|, norm);
    } else {
      assert EndsWithPercent(p[1..]);
      if p[0] == '%' {
        forall j | i <= j <= |s| ensures MatchesAt(items[1..], s, j, norm) <==> LikeWithin(p[1..], s, j, |s|, norm) {
          OpenBody(p[1..], s, j, norm);
        }
        StarSplits(p, s, i, |s|, norm);
        if j: nat :| i <= j && LikeWithin(p[1..], s, j, |s|, norm) {
          assert MatchesAt(items[1..], s, j, norm);
        }
      } else if i < |s| {
        OpenBody(p[1..], s, i + 1, norm);
        assert s[i..|s|][1..] == s[i + 1..|s|];
      }
    }
  }

  lemma StarSearchesFromStart(items: seq<Item>, s: string, norm: char -> char)
    requires items != [] && items[0].AnyStar?
    ensures Searches(items, s, norm) <==> MatchesAt(items, s, 0, norm)
  {}

  lemma AnchoredSearch(items: seq<Item>, s: string, norm: char -> char)
    ensures Searches([Begin] + items, s, norm) <==> MatchesAt(items, s, 0, norm)
  {
    assert ([Begin] + items)[1..] == items;
    assert MatchesAt([Begin] + items, s, 0, norm) <==> MatchesAt(items, s, 0, norm);
  }

  /** like_regex preserves meaning: searching the compiled text succeeds exactly if LIKE accepts the
      string, or, for a pattern not ending in `%`, the string without one final newline. */
  lemma LikeRegexMeaning(value: string, s: string, norm: char -> char)
    ensures Parse(LikePattern(value)).Some?
    ensures Searches(Parse(LikePattern(value)).value, s, norm) <==>
            Like(value, s, norm) ||
            (!EndsWithPercent(value) && |s| > 0 && s[|s| - 1] == '\n' && Like(value, s[..|s| - 1], norm))
  {
    PatternParses(value);
    var body := Body(value) + (if EndsWithPercent(value) then [] else [End]);
    assert s[0..|s|] == s;
    assert |s| > 0 ==> s[0..|s| - 1] == s[..|s| - 1];
    if StartsWithPercent(value) {
      assert Items(value) == body;
      StarSearchesFromStart(body, s, norm);
    } else {
      assert Items(value) == [Begin] + body;
      AnchoredSearch(body, s, norm);
    }
    if EndsWithPercent(value) {
      assert body == Body(value);
      OpenBody(value, s, 0, norm);
    } else {
      ClosedBody(value, s, 0, norm);
    }
  }
}
