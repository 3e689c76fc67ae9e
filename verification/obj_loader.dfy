/** The Wavefront OBJ reader of src/objLoader.rs, over the text of the file.
    `read_line` cuts the text into lines that keep their `'\n'`; each line
    is classified by its first two bytes; a `"v "` line adds a point, an
    `"f "` line adds a triangle whose 1-based indices are resolved against
    the points read so far, and every other line is skipped. Every
    `unwrap`, the `assert_eq!` on the record tag, the `usize` subtraction
    and the modulo become explicit panics. Number parsing is a parameter. */
module ObjLoader {
  import opened Wrappers
  import opened ExtReal
  import opened Vectors

  // ---------------------------------------------------------------------
  // Characters and lines

  /** The number of bytes `c` takes in UTF-8. */
  function Utf8Len(c: char): (n: nat)
    ensures 1 <= n <= 4
    ensures n == 1 <==> (c as int) < 0x80
  {
    if (c as int) < 0x80 then 1
    else if (c as int) < 0x800 then 2
    else if (c as int) < 0x1_0000 then 3
    else 4
  }

  /** Rust's `char::is_whitespace`: the Unicode `White_Space` property. */
  predicate IsWhite(c: char)
  {
    var u := c as int;
    (0x09 <= u <= 0x0D) || u == 0x20 || u == 0x85 || u == 0xA0 || u == 0x1680
    || (0x2000 <= u <= 0x200A) || u == 0x2028 || u == 0x2029 || u == 0x202F
    || u == 0x205F || u == 0x3000
  }

  /** The length of the first line of a non-empty text: up to and including
      the first `'\n'`, or the whole text when it has none. */
  function LineLength(text: string): (n: nat)
    requires |text| > 0
    ensures 0 < n <= |text|
    ensures forall k :: 0 <= k < n - 1 ==> text[k] != '\n'
    ensures n < |text| ==> text[n - 1] == '\n'
  {
    if text[0] == '\n' || |text| == 1 then 1 else 1 + LineLength(text[1..])
  }

  /** The successive results of `read_line` until it returns 0 bytes. */
  function Lines(text: string): (r: seq<string>)
    decreases |text|
    ensures forall k :: 0 <= k < |r| ==> |r[k]| > 0
  {
    if |text| == 0 then []
    else
      var n := LineLength(text);
      [text[..n]] + Lines(text[n..])
  }

  /** The characters of a sequence of strings, in order. */
  function Concat(ls: seq<string>): string
  {
    if |ls| == 0 then [] else ls[0] + Concat(ls[1..])
  }

  /** Reading the lines loses nothing: they put back together to the text. */
  lemma {:induction false} LinesRoundTrip(text: string)
    ensures Concat(Lines(text)) == text
    decreases |text|
  {
    if |text| > 0 {
      var n := LineLength(text);
      var rest := Lines(text[n..]);
      assert Lines(text) == [text[..n]] + rest;
      assert Lines(text)[1..] == rest;
      LinesRoundTrip(text[n..]);
      calc {
        Concat(Lines(text));
        text[..n] + Concat(rest);
        text[..n] + text[n..];
        text;
      }
    }
  }

  /** Every line but the last ends in `'\n'`. */
  lemma {:induction false} LinesEndInNewline(text: string)
    ensures forall k :: 0 <= k < |Lines(text)| - 1 ==> Lines(text)[k][|Lines(text)[k]| - 1] == '\n'
    decreases |text|
  {
    if |text| > 0 {
      var n := LineLength(text);
      var rest := Lines(text[n..]);
      assert Lines(text) == [text[..n]] + rest;
      LinesEndInNewline(text[n..]);
      forall k | 0 <= k < |Lines(text)| - 1
        ensures Lines(text)[k][|Lines(text)[k]| - 1] == '\n'
      {
        if k == 0 {
          assert n < |text|;
        } else {
          assert Lines(text)[k] == rest[k - 1];
        }
      }
    }
  }

  // ---------------------------------------------------------------------
  // The record tag `&line[0..2]`

  /** `&line[0..2]`: the characters of the first two bytes, or `None` where
      the slice panics, because the line is shorter than two bytes or byte 2
      falls inside a character. */
  function FirstTwoBytes(line: string): (r: Option<string>)
    ensures r.Some? ==> 1 <= |r.value| <= 2 && |r.value| <= |line| && r.value == line[..|r.value|]
    ensures r.Some? ==> (|r.value| == 1 <==> Utf8Len(line[0]) == 2)
    ensures r.Some? && |r.value| == 2 ==> Utf8Len(line[0]) == 1 && Utf8Len(line[1]) == 1
    ensures r.None? <==> (|line| == 0 || Utf8Len(line[0]) > 2
                          || (Utf8Len(line[0]) == 1 && (|line| == 1 || Utf8Len(line[1]) > 1)))
  {
    if |line| == 0 then None
    else if Utf8Len(line[0]) == 2 then Some(line[..1])
    else if Utf8Len(line[0]) > 2 then None
    else if |line| == 1 || Utf8Len(line[1]) > 1 then None
    else Some(line[..2])
  }

  datatype Kind = VertexLine | FaceLine | OtherLine | ShortLine

  /** The `match` on the record tag. */
  function Classify(line: string): (k: Kind)
    ensures k == VertexLine <==> |line| >= 2 && line[0] == 'v' && line[1] == ' '
    ensures k == FaceLine <==> |line| >= 2 && line[0] == 'f' && line[1] == ' '
    ensures k == ShortLine <==> FirstTwoBytes(line).None?
  {
    match FirstTwoBytes(line)
    case None => ShortLine
    case Some(tag) =>
      if tag == "v " then VertexLine
      else if tag == "f " then FaceLine
      else OtherLine
  }

  /** A blank line (`"\n"`, one byte) panics on the slice; a comment or a
      record other than `v` and `f` is skipped, even one starting with `v`. */
  lemma ClassifyExamples()
    ensures Classify("\n") == ShortLine
    ensures Classify("") == ShortLine
    ensures Classify("# made by hand\n") == OtherLine
    ensures Classify("vn 0 0 1\n") == OtherLine
    ensures Classify("v 1 2 3\n") == VertexLine
  {
    assert "# made by hand\n"[..2] == "# ";
    assert "vn 0 0 1\n"[..2] == "vn";
  }

  // ---------------------------------------------------------------------
  // split_whitespace

  /** The number of leading non-whitespace characters. */
  function RunLength(s: string): (n: nat)
    ensures n <= |s|
    ensures forall k :: 0 <= k < n ==> !IsWhite(s[k])
    ensures n < |s| ==> IsWhite(s[n])
  {
    if |s| == 0 || IsWhite(s[0]) then 0 else 1 + RunLength(s[1..])
  }

  predicate NoWhite(s: string)
  {
    forall k :: 0 <= k < |s| ==> !IsWhite(s[k])
  }

  /** `split_whitespace`: the maximal runs of non-whitespace characters, in
      order. */
  function Tokens(s: string): (r: seq<string>)
    decreases |s|
    ensures forall k :: 0 <= k < |r| ==> |r[k]| > 0 && NoWhite(r[k])
  {
    if |s| == 0 then []
    else if IsWhite(s[0]) then Tokens(s[1..])
    else
      var n := RunLength(s);
      [s[..n]] + Tokens(s[n..])
  }

  /** `s` with every whitespace character dropped. */
  function RemoveWhite(s: string): string
    decreases |s|
  {
    if |s| == 0 then [] else (if IsWhite(s[0]) then [] else [s[0]]) + RemoveWhite(s[1..])
  }

  lemma {:induction false} RemoveWhiteAppend(a: string, b: string)
    ensures RemoveWhite(a + b) == RemoveWhite(a) + RemoveWhite(b)
    decreases |a|
  {
    if |a| > 0 {
      assert (a + b)[1..] == a[1..] + b;
      RemoveWhiteAppend(a[1..], b);
    } else {
      assert a + b == b;
    }
  }

  lemma {:induction false} RemoveWhiteNoWhite(w: string)
    requires NoWhite(w)
    ensures RemoveWhite(w) == w
    decreases |w|
  {
    if |w| > 0 {
      RemoveWhiteNoWhite(w[1..]);
      assert w == [w[0]] + w[1..];
    }
  }

  /** Nothing but whitespace is lost: the tokens, concatenated, are `s` with
      its whitespace removed. */
  lemma {:induction false} TokensConcat(s: string)
    ensures Concat(Tokens(s)) == RemoveWhite(s)
    decreases |s|
  {
    if |s| > 0 {
      if IsWhite(s[0]) {
        TokensConcat(s[1..]);
      } else {
        var n := RunLength(s);
        var ts := Tokens(s);
        assert ts == [s[..n]] + Tokens(s[n..]);
        assert ts[1..] == Tokens(s[n..]);
        TokensConcat(s[n..]);
        assert NoWhite(s[..n]);
        RemoveWhiteNoWhite(s[..n]);
        RemoveWhiteAppend(s[..n], s[n..]);
        assert s[..n] + s[n..] == s;
      }
    }
  }

  /** A whitespace character skipped before the first word does not change
      where the word's run ends. */
  lemma {:induction false} RunLengthStopsAtWhite(s: string, w: char, t: string)
    requires IsWhite(w)
    ensures RunLength(s + [w] + t) == RunLength(s)
    decreases |s|
  {
    var u := s + [w] + t;
    if |s| == 0 {
      assert u[0] == w;
    } else if !IsWhite(s[0]) {
      assert u[1..] == s[1..] + [w] + t;
      RunLengthStopsAtWhite(s[1..], w, t);
    }
  }

  /** A whitespace character separates tokens: the tokens of `s`, a
      whitespace character and `t` are those of `s` followed by those of `t`,
      so no token spans whitespace. */
  lemma {:induction false} TokensSplit(s: string, w: char, t: string)
    requires IsWhite(w)
    ensures Tokens(s + [w] + t) == Tokens(s) + Tokens(t)
    decreases |s|
  {
    var u := s + [w] + t;
    if |s| == 0 {
      assert u[1..] == t;
    } else if IsWhite(s[0]) {
      assert u[1..] == s[1..] + [w] + t;
      TokensSplit(s[1..], w, t);
    } else {
      var n := RunLength(s);
      RunLengthStopsAtWhite(s, w, t);
      assert u[..n] == s[..n];
      assert u[n..] == s[n..] + [w] + t;
      TokensSplit(s[n..], w, t);
    }
  }

  /** A non-empty word without whitespace is a single token. */
  lemma TokensOfWord(word: string)
    requires |word| > 0 && NoWhite(word)
    ensures Tokens(word) == [word]
  {
    assert RunLength(word) == |word|;
    assert word[..|word|] == word;
    assert word[|word|..] == [];
  }

  /** A one-character tag followed by whitespace is the first token, and the
      remaining tokens are those after the whitespace. */
  lemma TagToken(s: string)
    requires |s| >= 2 && !IsWhite(s[0]) && IsWhite(s[1])
    ensures |Tokens(s)| >= 1 && Tokens(s)[0] == [s[0]]
    ensures Tokens(s)[1..] == Tokens(s[2..])
  {
    assert RunLength(s) == 1;
    assert s[1..][1..] == s[2..];
  }

  /** The `assert_eq!` on the tag never fails: the first token of a `"v "`
      line is `"v"`, and that of an `"f "` line is `"f"`. */
  lemma TagAssertHolds(line: string)
    requires Classify(line) == VertexLine || Classify(line) == FaceLine
    ensures |Tokens(line)| >= 1
    ensures Classify(line) == VertexLine ==> Tokens(line)[0] == "v"
    ensures Classify(line) == FaceLine ==> Tokens(line)[0] == "f"
  {
    TagToken(line);
  }

  // ---------------------------------------------------------------------
  // Records

  datatype Triangle = Triangle(a: EVec3, b: EVec3, c: EVec3)

  /** Why a line makes the reader panic. */
  datatype Panic =
    | SliceOutOfBounds   // `&line[0..2]` on a line shorter than two bytes
    | TagMismatch        // the `assert_eq!` on the first token
    | MissingToken       // `iter.next().unwrap()`
    | BadNumber          // `parse().unwrap()`
    | IndexUnderflow     // `idx - 1` with `idx == 0`
    | ZeroDivisor        // `% points.len()` before any point

  datatype Parsed<T> = Ok(value: T) | Fail(panic: Panic)

  /** Parsers for `f64` and `usize` tokens, `None` where `parse` fails. */
  type FloatParser = string -> Option<Ext>
  type IndexParser = string -> Option<nat>

  /** `iter.next().unwrap().parse().unwrap()` on token `k`. */
  function Coordinate(tokens: seq<string>, k: nat, parseF: FloatParser): (r: Parsed<Ext>)
    ensures r.Ok? <==> k < |tokens| && parseF(tokens[k]).Some?
    ensures r.Ok? ==> r.value == parseF(tokens[k]).value
    ensures r.Fail? ==> r.panic == (if k < |tokens| then BadNumber else MissingToken)
  {
    if k >= |tokens| then Fail(MissingToken)
    else match parseF(tokens[k])
      case None => Fail(BadNumber)
      case Some(x) => Ok(x)
  }

  /** A `"v "` line's point: tokens 1, 2 and 3, read in order. */
  function ParseVertex(tokens: seq<string>, parseF: FloatParser): (r: Parsed<EVec3>)
    ensures r.Ok? <==> |tokens| >= 4 && forall k :: 1 <= k <= 3 ==> parseF(tokens[k]).Some?
    ensures r.Ok? ==> r.value == EVector3(parseF(tokens[1]).value, parseF(tokens[2]).value, parseF(tokens[3]).value)
  {
    match Coordinate(tokens, 1, parseF)
    case Fail(p) => Fail(p)
    case Ok(x) =>
      match Coordinate(tokens, 2, parseF)
      case Fail(p) => Fail(p)
      case Ok(y) =>
        match Coordinate(tokens, 3, parseF)
        case Fail(p) => Fail(p)
        case Ok(z) => Ok(EVector3(x, y, z))
  }

  /** `points.get((idx - 1) % points.len()).unwrap()` for token `k`: the
      1-based index wraps around the points read so far. */
  function Vertex(tokens: seq<string>, k: nat, parseU: IndexParser, points: seq<EVec3>): (r: Parsed<EVec3>)
    ensures r.Ok? <==> k < |tokens| && parseU(tokens[k]).Some? && parseU(tokens[k]).value > 0 && |points| > 0
    ensures r.Ok? ==> r.value == points[(parseU(tokens[k]).value - 1) % |points|] && r.value in points
    ensures r.Fail? && k < |tokens| && parseU(tokens[k]).Some? && parseU(tokens[k]).value > 0 ==> r.panic == ZeroDivisor
    ensures r.Fail? && k < |tokens| && parseU(tokens[k]) == Some(0) ==> r.panic == IndexUnderflow
  {
    if k >= |tokens| then Fail(MissingToken)
    else match parseU(tokens[k])
      case None => Fail(BadNumber)
      case Some(idx) =>
        if idx == 0 then Fail(IndexUnderflow)
        else if |points| == 0 then Fail(ZeroDivisor)
        else Ok(points[(idx - 1) % |points|])
  }

  /** An `"f "` line's triangle: tokens 1, 2 and 3 resolved in order; any
      further token is ignored. */
  function ParseFace(tokens: seq<string>, parseU: IndexParser, points: seq<EVec3>): (r: Parsed<Triangle>)
    ensures r.Ok? <==> (|tokens| >= 4 && |points| > 0
                        && forall k :: 1 <= k <= 3 ==> parseU(tokens[k]).Some? && parseU(tokens[k]).value > 0)
    ensures r.Ok? ==> r.value.a in points && r.value.b in points && r.value.c in points
    ensures r.Ok? ==>
      && r.value.a == points[(parseU(tokens[1]).value - 1) % |points|]
      && r.value.b == points[(parseU(tokens[2]).value - 1) % |points|]
      && r.value.c == points[(parseU(tokens[3]).value - 1) % |points|]
  {
    match Vertex(tokens, 1, parseU, points)
    case Fail(p) => Fail(p)
    case Ok(a) =>
      match Vertex(tokens, 2, parseU, points)
      case Fail(p) => Fail(p)
      case Ok(b) =>
        match Vertex(tokens, 3, parseU, points)
        case Fail(p) => Fail(p)
        case Ok(c) => Ok(Triangle(a, b, c))
  }

  // ---------------------------------------------------------------------
  // The read loop

  datatype State = State(points: seq<EVec3>, tris: seq<Triangle>)

  /** One iteration of the loop body on one line. */
  function Step(st: State, line: string, parseF: FloatParser, parseU: IndexParser): (r: Parsed<State>)
    ensures Classify(line) == ShortLine <==> r == Fail(SliceOutOfBounds)
    ensures Classify(line) == OtherLine ==> r == Ok(st)
    ensures Classify(line) == VertexLine ==>
      (r.Ok? <==> ParseVertex(Tokens(line), parseF).Ok?)
    ensures Classify(line) == VertexLine && r.Ok? ==>
      r.value.tris == st.tris
      && r.value.points == st.points + [EVector3(parseF(Tokens(line)[1]).value, parseF(Tokens(line)[2]).value, parseF(Tokens(line)[3]).value)]
    ensures Classify(line) == FaceLine ==>
      (r.Ok? <==> ParseFace(Tokens(line), parseU, st.points).Ok?)
    ensures Classify(line) == FaceLine && r.Ok? ==>
      r.value.points == st.points && r.value.tris == st.tris + [ParseFace(Tokens(line), parseU, st.points).value]
  {
    match Classify(line)
    case ShortLine => Fail(SliceOutOfBounds)
    case OtherLine => Ok(st)
    case VertexLine =>
      var tokens := Tokens(line);
      if |tokens| == 0 || tokens[0] != "v" then Fail(TagMismatch)
      else (
        match ParseVertex(tokens, parseF)
        case Fail(p) => Fail(p)
        case Ok(v) => Ok(State(st.points + [v], st.tris)))
    case FaceLine =>
      var tokens := Tokens(line);
      if |tokens| == 0 || tokens[0] != "f" then Fail(TagMismatch)
      else
        match ParseFace(tokens, parseU, st.points)
        case Fail(p) => Fail(p)
        case Ok(t) => Ok(State(st.points, st.tris + [t]))
  }

  /** The loop over the lines from state `st`: the first panic ends it. */
  function LoadLines(lines: seq<string>, st: State, parseF: FloatParser, parseU: IndexParser): (r: Parsed<State>)
  {
    if |lines| == 0 then Ok(st)
    else
      match Step(st, lines[0], parseF, parseU)
      case Fail(p) => Fail(p)
      case Ok(next) => LoadLines(lines[1..], next, parseF, parseU)
  }

  /** `objToTrilist` on the text of the file: the triangles, or the panic. */
  function ObjToTrilist(text: string, parseF: FloatParser, parseU: IndexParser): (r: Parsed<seq<Triangle>>)
    ensures text == [] ==> r == Ok([])
  {
    match LoadLines(Lines(text), State([], []), parseF, parseU)
    case Fail(p) => Fail(p)
    case Ok(st) => Ok(st.tris)
  }

  /** The loop of `objToTrilist` as written: `read_line` into a buffer until
      it reads nothing, then the `match` on the line. It computes the same
      outcome as the line-by-line definition. */
  method ReadAll(text: string, parseF: FloatParser, parseU: IndexParser) returns (r: Parsed<seq<Triangle>>)
    ensures r == ObjToTrilist(text, parseF, parseU)
  {
    var rest := text;
    var st := State([], []);
    while |rest| > 0
      invariant LoadLines(Lines(text), State([], []), parseF, parseU) == LoadLines(Lines(rest), st, parseF, parseU)
      decreases |rest|
    {
      var n := LineLength(rest);
      var line := rest[..n];
      assert Lines(rest) == [line] + Lines(rest[n..]);
      match Step(st, line, parseF, parseU) {
        case Fail(p) =>
          return Fail(p);
        case Ok(next) =>
          st := next;
      }
      rest := rest[n..];
    }
    return Ok(st.tris);
  }

  /** The number of lines of kind `k`. */
  function CountKind(lines: seq<string>, k: Kind): nat
  {
    if |lines| == 0 then 0
    else (if Classify(lines[0]) == k then 1 else 0) + CountKind(lines[1..], k)
  }

  /** A successful load adds one point per `"v "` line and one triangle per
      `"f "` line, and keeps what it had. */
  lemma {:induction false} LoadCounts(lines: seq<string>, st: State, parseF: FloatParser, parseU: IndexParser)
    ensures LoadLines(lines, st, parseF, parseU).Ok? ==>
      var out := LoadLines(lines, st, parseF, parseU).value;
      && |out.points| == |st.points| + CountKind(lines, VertexLine)
      && |out.tris| == |st.tris| + CountKind(lines, FaceLine)
      && out.points[..|st.points|] == st.points
      && out.tris[..|st.tris|] == st.tris
  {
    if |lines| > 0 {
      var r := Step(st, lines[0], parseF, parseU);
      if r.Ok? {
        var next := r.value;
        StepCounts(st, lines[0], parseF, parseU);
        LoadCounts(lines[1..], next, parseF, parseU);
        assert LoadLines(lines, st, parseF, parseU) == LoadLines(lines[1..], next, parseF, parseU);
        if LoadLines(lines[1..], next, parseF, parseU).Ok? {
          var out := LoadLines(lines[1..], next, parseF, parseU).value;
          assert out.points[..|st.points|] == out.points[..|next.points|][..|st.points|];
          assert out.tris[..|st.tris|] == out.tris[..|next.tris|][..|st.tris|];
        }
      }
    }
  }

  /** Every corner of every triangle a load produces is a point it loaded. */
  lemma {:induction false} LoadKeepsVertices(lines: seq<string>, st: State, parseF: FloatParser, parseU: IndexParser)
    requires forall t :: t in st.tris ==> t.a in st.points && t.b in st.points && t.c in st.points
    ensures LoadLines(lines, st, parseF, parseU).Ok? ==>
      var out := LoadLines(lines, st, parseF, parseU).value;
      forall t :: t in out.tris ==> t.a in out.points && t.b in out.points && t.c in out.points
  {
    if |lines| > 0 {
      var r := Step(st, lines[0], parseF, parseU);
      if r.Ok? {
        StepKeepsVertices(st, lines[0], parseF, parseU);
        LoadKeepsVertices(lines[1..], r.value, parseF, parseU);
      }
    }
  }

  /** One step adds a point for a `"v "` line and a triangle for an `"f "`
      line, and keeps what was there. */
  lemma StepCounts(st: State, line: string, parseF: FloatParser, parseU: IndexParser)
    ensures Step(st, line, parseF, parseU).Ok? ==>
      var next := Step(st, line, parseF, parseU).value;
      && |next.points| == |st.points| + (if Classify(line) == VertexLine then 1 else 0)
      && |next.tris| == |st.tris| + (if Classify(line) == FaceLine then 1 else 0)
      && next.points[..|st.points|] == st.points
      && next.tris[..|st.tris|] == st.tris
  {
  }

  /** One step keeps every triangle's vertices among the points. */
  lemma StepKeepsVertices(st: State, line: string, parseF: FloatParser, parseU: IndexParser)
    requires forall t :: t in st.tris ==> t.a in st.points && t.b in st.points && t.c in st.points
    ensures Step(st, line, parseF, parseU).Ok? ==>
      var next := Step(st, line, parseF, parseU).value;
      forall t :: t in next.tris ==> t.a in next.points && t.b in next.points && t.c in next.points
  {
  }

  /** A file that loads gives exactly one triangle per `"f "` line. */
  lemma TrilistShape(text: string, parseF: FloatParser, parseU: IndexParser)
    ensures ObjToTrilist(text, parseF, parseU).Ok? ==>
      |ObjToTrilist(text, parseF, parseU).value| == CountKind(Lines(text), FaceLine)
  {
    LoadCounts(Lines(text), State([], []), parseF, parseU);
  }

  /** A face line before any point panics on the modulo, once its first
      index token is present and names a positive index. */
  lemma FaceBeforePoints(line: string, tris: seq<Triangle>, parseF: FloatParser, parseU: IndexParser)
    requires Classify(line) == FaceLine
    requires |Tokens(line)| >= 2 && parseU(Tokens(line)[1]).Some? && parseU(Tokens(line)[1]).value > 0
    ensures Step(State([], tris), line, parseF, parseU) == Fail(ZeroDivisor)
  {
    TagAssertHolds(line);
  }

  /** Face index 0 panics on the subtraction. */
  lemma FaceIndexZero(st: State, line: string, parseF: FloatParser, parseU: IndexParser)
    requires Classify(line) == FaceLine
    requires |Tokens(line)| >= 2 && parseU(Tokens(line)[1]) == Some(0)
    ensures Step(st, line, parseF, parseU) == Fail(IndexUnderflow)
  {
    TagAssertHolds(line);
  }
}
