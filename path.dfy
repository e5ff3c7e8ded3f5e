/**
 * Path data (section 8.3 of SVG 1.1) as `PathBuilder` writes it
 * (src/main.rs:33-66): each command is one code letter, M, L, C or Z,
 * followed by its rounded points, written `x,y` and separated by one
 * space inside a cubic; commands follow each other with no separator.
 */
module Path {
  import opened Wrappers
  import opened Geometry
  import opened Rounding
  import opened Decimal

  /** One call on the builder, with the points as the caller passed them (before rounding). */
  datatype Command =
    | Move(to: Point)
    | Line(to: Point)
    | Cubic(c1: Point, c2: Point, to: Point)
    | Close

  /** The letter that starts the text of `c`. */
  function Code(c: Command): char
  {
    match c
    case Move(_) => 'M'
    case Line(_) => 'L'
    case Cubic(_, _, _) => 'C'
    case Close => 'Z'
  }

  predicate IsCode(ch: char)
  {
    ch == 'M' || ch == 'L' || ch == 'C' || ch == 'Z'
  }

  /** The point `r` makes of `p`: both coordinates rounded to thousandths. */
  function RoundPoint(p: Point): Point
  {
    Point(R(p.x), R(p.y))
  }

  /** The command with every point rounded, which is what the text carries. */
  function RoundCommand(c: Command): Command
  {
    match c
    case Move(p) => Move(RoundPoint(p))
    case Line(p) => Line(RoundPoint(p))
    case Cubic(p1, p2, p) => Cubic(RoundPoint(p1), RoundPoint(p2), RoundPoint(p))
    case Close => Close
  }

  function RoundAll(cmds: seq<Command>): (r: seq<Command>)
    ensures |r| == |cmds|
  {
    if cmds == [] then [] else RoundAll(cmds[..|cmds| - 1]) + [RoundCommand(cmds[|cmds| - 1])]
  }

  /** No code letter occurs in `s`. */
  predicate CodeFree(s: string)
  {
    forall i :: 0 <= i < |s| ==> !IsCode(s[i])
  }

  /** `s` is made of numerals and commas only: no code letter and no space. */
  predicate Plain(s: string)
  {
    forall i :: 0 <= i < |s| ==> IsNumeralChar(s[i]) || s[i] == ','
  }

  lemma PlainConcat(a: string, b: string)
    requires Plain(a) && Plain(b)
    ensures Plain(a + b)
  {
  }

  lemma CodeFreeConcat(a: string, b: string)
    requires CodeFree(a) && CodeFree(b)
    ensures CodeFree(a + b)
  {
  }

  /** `x,y`, each coordinate written as `r` of it. */
  function Coords(p: Point): string
  {
    Num(p.x) + "," + Num(p.y)
  }

  /** A written point holds numerals and a comma only. */
  lemma CoordsPlain(p: Point)
    ensures Plain(Coords(p)) && CodeFree(Coords(p))
  {
    var a, b := Num(p.x), Num(p.y);
    PlainConcat(a, ",");
    PlainConcat(a + ",", b);
  }

  /** The points of `c` as the builder writes them, after the code letter. */
  function Body(c: Command): string
  {
    match c
    case Move(p) => Coords(p)
    case Line(p) => Coords(p)
    case Cubic(p1, p2, p) => Coords(p1) + " " + Coords(p2) + " " + Coords(p)
    case Close => ""
  }

  /** No code letter occurs among the points of a command. */
  lemma BodyCodeFree(c: Command)
    ensures CodeFree(Body(c))
  {
    match c
    case Move(p) => CoordsPlain(p);
    case Line(p) => CoordsPlain(p);
    case Cubic(p1, p2, p) =>
      var a, b, e := Coords(p1), Coords(p2), Coords(p);
      CoordsPlain(p1);
      CoordsPlain(p2);
      CoordsPlain(p);
      CodeFreeConcat(a, " ");
      CodeFreeConcat(a + " ", b);
      CodeFreeConcat(a + " " + b, " ");
      CodeFreeConcat(a + " " + b + " ", e);
    case Close =>
  }

  /** The text one builder call appends: its code letter, then its points. */
  function Text(c: Command): string
  {
    [Code(c)] + Body(c)
  }

  /** The text of a command starts with its code letter, and no other code letter occurs in it. */
  lemma TextShape(c: Command)
    ensures |Text(c)| > 0 && Text(c)[0] == Code(c) && Text(c)[1..] == Body(c)
    ensures CodeFree(Text(c)[1..])
    ensures c.Close? <==> Text(c) == "Z"
  {
    BodyCodeFree(c);
    if !c.Close? {
      assert |Body(c)| > 0;
    }
  }

  /** The path text that a sequence of builder calls leaves in the buffer. */
  function Serialize(cmds: seq<Command>): string
  {
    if cmds == [] then "" else Serialize(cmds[..|cmds| - 1]) + Text(cmds[|cmds| - 1])
  }

  /** The code letters of a sequence of commands. */
  function Codes(cmds: seq<Command>): (s: string)
    ensures |s| == |cmds|
    ensures forall i :: 0 <= i < |cmds| ==> s[i] == Code(cmds[i])
  {
    if cmds == [] then "" else Codes(cmds[..|cmds| - 1]) + [Code(cmds[|cmds| - 1])]
  }

  /** The code letters that occur in a text, in order. */
  function Letters(s: string): string
  {
    if s == [] then ""
    else Letters(s[..|s| - 1]) + (if IsCode(s[|s| - 1]) then [s[|s| - 1]] else "")
  }

  lemma {:induction false} LettersAppend(a: string, b: string)
    ensures Letters(a + b) == Letters(a) + Letters(b)
    decreases |b|
  {
    if b == [] {
      assert a + b == a;
    } else {
      var b' := b[..|b| - 1];
      assert (a + b)[..|a + b| - 1] == a + b';
      LettersAppend(a, b');
    }
  }

  lemma {:induction false} LettersOfText(c: Command)
    ensures Letters(Text(c)) == [Code(c)]
  {
    var s := Text(c);
    LettersAppend([Code(c)], Body(c));
    assert Letters([Code(c)]) == [Code(c)] by {
      assert [Code(c)][..0] == [];
    }
    BodyCodeFree(c);
    LettersNone(Body(c));
  }

  lemma {:induction false} LettersNone(s: string)
    requires CodeFree(s)
    ensures Letters(s) == ""
  {
    if s != [] {
      LettersNone(s[..|s| - 1]);
    }
  }

  /** The code letters in a path text are the commands' codes, in the order they were issued. */
  lemma {:induction false} LettersOfSerialize(cmds: seq<Command>)
    ensures Letters(Serialize(cmds)) == Codes(cmds)
  {
    if cmds != [] {
      var init := cmds[..|cmds| - 1];
      var last := cmds[|cmds| - 1];
      LettersAppend(Serialize(init), Text(last));
      LettersOfSerialize(init);
      LettersOfText(last);
    }
  }

  /** Appending a command appends its text. */
  lemma SerializeSnoc(cmds: seq<Command>, c: Command)
    ensures Serialize(cmds + [c]) == Serialize(cmds) + Text(c)
  {
    assert (cmds + [c])[..|cmds|] == cmds;
  }

  lemma {:induction false} SerializeShape(cmds: seq<Command>)
    requires cmds != []
    ensures |Serialize(cmds)| > 0
    ensures Serialize(cmds)[0] == Code(cmds[0])
    ensures cmds[|cmds| - 1].Close? ==> Serialize(cmds)[|Serialize(cmds)| - 1] == 'Z'
  {
    var init := cmds[..|cmds| - 1];
    if init != [] {
      SerializeShape(init);
    }
  }

  // ---------------------------------------------------------------------
  // What a path draws (section 8.3 of SVG 1.1): each command after the
  // first move draws one piece from the current point, and close draws the
  // straight piece back to where the subpath started.

  datatype Piece =
    | Segment(from: Point, to: Point)
    | Bezier(from: Point, c1: Point, c2: Point, to: Point)

  /** The pieces `cmds` draw from current point `pen` in a subpath that started at `start`. */
  function Trace(cmds: seq<Command>, pen: Point, start: Point): seq<Piece>
  {
    if cmds == [] then []
    else
      match cmds[0]
      case Move(p) => Trace(cmds[1..], p, p)
      case Line(p) => [Segment(pen, p)] + Trace(cmds[1..], p, start)
      case Cubic(c1, c2, p) => [Bezier(pen, c1, c2, p)] + Trace(cmds[1..], p, start)
      case Close => [Segment(pen, start)] + Trace(cmds[1..], start, start)
  }

  /** The pieces a path draws; a path starts with a move, which sets the pen. */
  function Pieces(cmds: seq<Command>): seq<Piece>
  {
    Trace(cmds, Point(0.0, 0.0), Point(0.0, 0.0))
  }

  // ---------------------------------------------------------------------
  // Reading a path text back, as a path-data parser does. Decode is the
  // partner of Serialize: it recovers every command with its points
  // rounded, so the text is unambiguous and loses nothing but rounding.

  /** The position of the last code letter in `s`, or |s| when there is none. */
  function LastCode(s: string): (i: nat)
    ensures i <= |s|
    ensures i < |s| ==> IsCode(s[i]) && forall j :: i < j < |s| ==> !IsCode(s[j])
    ensures i == |s| ==> forall j :: 0 <= j < |s| ==> !IsCode(s[j])
  {
    if s == [] then 0
    else if IsCode(s[|s| - 1]) then |s| - 1
    else
      var k := LastCode(s[..|s| - 1]);
      if k == |s| - 1 then |s| else k
  }

  lemma LastCodeIs(s: string, i: nat)
    requires i < |s| && IsCode(s[i])
    requires forall j :: i < j < |s| ==> !IsCode(s[j])
    ensures LastCode(s) == i
  {
  }

  /** Reads `x,y`. */
  function ParsePoint(s: string): Option<Point>
  {
    var i := Find(s, ',');
    if i == |s| then None
    else
      match (ParseMilli(s[..i]), ParseMilli(s[i + 1..]))
      case (Some(kx), Some(ky)) => Some(Point(kx as real / 1000.0, ky as real / 1000.0))
      case _ => None
  }

  /** Reads `x1,y1 x2,y2 x,y`. */
  function ParseCubic(s: string): Option<Command>
  {
    var i := Find(s, ' ');
    if i == |s| then None
    else
      var rest := s[i + 1..];
      var j := Find(rest, ' ');
      if j == |rest| then None
      else
        match (ParsePoint(s[..i]), ParsePoint(rest[..j]), ParsePoint(rest[j + 1..]))
        case (Some(p1), Some(p2), Some(p)) => Some(Cubic(p1, p2, p))
        case _ => None
  }

  /** Reads the text of one command, code letter first. */
  function ParseCommand(s: string): Option<Command>
  {
    if s == [] then None
    else if s[0] == 'Z' then (if |s| == 1 then Some(Close) else None)
    else if s[0] == 'M' then
      match ParsePoint(s[1..])
      case Some(p) => Some(Move(p))
      case None => None
    else if s[0] == 'L' then
      match ParsePoint(s[1..])
      case Some(p) => Some(Line(p))
      case None => None
    else if s[0] == 'C' then ParseCubic(s[1..])
    else None
  }

  /** Reads a whole path text into its commands, or None if it is not one. */
  function Decode(s: string): Option<seq<Command>>
    decreases |s|
  {
    if s == [] then Some([])
    else
      var i := LastCode(s);
      if i == |s| then None
      else
        match (Decode(s[..i]), ParseCommand(s[i..]))
        case (Some(init), Some(c)) => Some(init + [c])
        case _ => None
  }

  /** `ParsePoint` splits at the first comma and reads both halves as thousandths. */
  lemma ParsePointSplit(a: string, b: string, kx: int, ky: int)
    requires forall j :: 0 <= j < |a| ==> a[j] != ','
    requires ParseMilli(a) == Some(kx) && ParseMilli(b) == Some(ky)
    ensures ParsePoint(a + "," + b) == Some(Point(kx as real / 1000.0, ky as real / 1000.0))
  {
    FindSeparator(a, ',', b);
  }

  /** Reading back the text of a point gives the point with both coordinates rounded. */
  lemma ParsePointCoords(p: Point)
    ensures ParsePoint(Coords(p)) == Some(RoundPoint(p))
  {
    var a, b := Num(p.x), Num(p.y);
    assert Coords(p) == a + "," + b;
    NumRoundTrip(p.x);
    NumRoundTrip(p.y);
    ParsePointSplit(a, b, Milli(p.x), Milli(p.y));
  }

  /** `ParseCubic` splits at the first two spaces and reads the three points. */
  lemma ParseCubicSplit(a: string, b: string, e: string)
    requires forall j :: 0 <= j < |a| ==> a[j] != ' '
    requires forall j :: 0 <= j < |b| ==> b[j] != ' '
    ensures ParseCubic(a + " " + b + " " + e)
         == if ParsePoint(a).Some? && ParsePoint(b).Some? && ParsePoint(e).Some?
            then Some(Cubic(ParsePoint(a).value, ParsePoint(b).value, ParsePoint(e).value))
            else None
  {
    assert a + " " + b + " " + e == a + [' '] + (b + " " + e);
    FindSeparator(a, ' ', b + " " + e);
    FindSeparator(b, ' ', e);
  }

  /** Reading back the points of a cubic gives them rounded. */
  lemma ParseCubicCoords(p1: Point, p2: Point, p: Point)
    ensures ParseCubic(Body(Cubic(p1, p2, p)))
         == Some(Cubic(RoundPoint(p1), RoundPoint(p2), RoundPoint(p)))
  {
    CoordsPlain(p1);
    CoordsPlain(p2);
    ParseCubicSplit(Coords(p1), Coords(p2), Coords(p));
    ParsePointCoords(p1);
    ParsePointCoords(p2);
    ParsePointCoords(p);
  }

  /** `ParseCommand` dispatches on the code letter and reads the rest with the matching reader. */
  lemma ParseCoded(code: char, body: string)
    ensures code == 'Z' ==> ParseCommand([code] + body) == (if body == [] then Some(Close) else None)
    ensures code == 'M' ==> ParseCommand([code] + body) == (if ParsePoint(body).Some? then Some(Move(ParsePoint(body).value)) else None)
    ensures code == 'L' ==> ParseCommand([code] + body) == (if ParsePoint(body).Some? then Some(Line(ParsePoint(body).value)) else None)
    ensures code == 'C' ==> ParseCommand([code] + body) == ParseCubic(body)
  {
    assert ([code] + body)[1..] == body;
  }

  /** Reading back the text of one command gives the command with its points rounded. */
  lemma ParseText(c: Command)
    ensures ParseCommand(Text(c)) == Some(RoundCommand(c))
  {
    ParseCoded(Code(c), Body(c));
    match c
    case Move(p) =>
      ParsePointCoords(p);
    case Line(p) =>
      ParsePointCoords(p);
    case Cubic(p1, p2, p) =>
      ParseCubicCoords(p1, p2, p);
    case Close =>
  }

  /** When `t` starts with the only code letter in it, the last code letter of `a + t` is at |a|. */
  lemma LastCodeAfter(a: string, t: string)
    requires |t| > 0 && IsCode(t[0]) && CodeFree(t[1..])
    ensures LastCode(a + t) == |a|
    ensures (a + t)[..|a|] == a && (a + t)[|a|..] == t
  {
    var s := a + t;
    assert s[|a| + 1..] == t[1..];
    forall j | |a| < j < |s|
      ensures !IsCode(s[j])
    {
      assert s[j] == t[1..][j - |a| - 1];
    }
    LastCodeIs(s, |a|);
    assert s[..|a|] == a;
    assert s[|a|..] == t;
  }

  /** In a text followed by the text of `c`, the last code letter is the one that starts `c`. */
  lemma LastCodeOfText(a: string, c: Command)
    ensures LastCode(a + Text(c)) == |a|
    ensures (a + Text(c))[..|a|] == a && (a + Text(c))[|a|..] == Text(c)
  {
    TextShape(c);
    LastCodeAfter(a, Text(c));
  }

  /** Decoding a path text gives back every command, with its points rounded. */
  lemma {:induction false} DecodeSerialize(cmds: seq<Command>)
    ensures Decode(Serialize(cmds)) == Some(RoundAll(cmds))
  {
    if cmds != [] {
      var init, last := cmds[..|cmds| - 1], cmds[|cmds| - 1];
      LastCodeOfText(Serialize(init), last);
      DecodeSerialize(init);
      ParseText(last);
    }
  }

  /**
   * `PathBuilder` (src/main.rs:33-66): the buffer `buf` only ever grows.
   * `cmds` is the ghost record of the calls made so far, and the buffer is
   * always their text.
   */
  class PathBuilder {
    var buf: string
    ghost var cmds: seq<Command>

    ghost predicate Valid()
      reads this
    {
      buf == Serialize(cmds)
    }

    /** `new` (src/main.rs:38-40): an empty buffer. */
    constructor ()
      ensures Valid() && cmds == [] && buf == ""
    {
      buf := "";
      cmds := [];
    }

    /** `move_to` (src/main.rs:42-44): appends `M` and the rounded point. */
    method MoveTo(p: Point)
      requires Valid()
      modifies this
      ensures Valid() && cmds == old(cmds) + [Move(p)]
      ensures buf == old(buf) + Text(Move(p))
    {
      var text := "M" + Num(p.x) + "," + Num(p.y);
      assert text == Text(Move(p));
      buf := buf + text;
      SerializeSnoc(cmds, Move(p));
      cmds := cmds + [Move(p)];
    }

    /** `line_to` (src/main.rs:46-48): appends `L` and the rounded point. */
    method LineTo(p: Point)
      requires Valid()
      modifies this
      ensures Valid() && cmds == old(cmds) + [Line(p)]
      ensures buf == old(buf) + Text(Line(p))
    {
      var text := "L" + Num(p.x) + "," + Num(p.y);
      assert text == Text(Line(p));
      buf := buf + text;
      SerializeSnoc(cmds, Line(p));
      cmds := cmds + [Line(p)];
    }

    /** `cubic_to` (src/main.rs:50-61): appends `C` and the three rounded points. */
    method CubicTo(p1: Point, p2: Point, p: Point)
      requires Valid()
      modifies this
      ensures Valid() && cmds == old(cmds) + [Cubic(p1, p2, p)]
      ensures buf == old(buf) + Text(Cubic(p1, p2, p))
    {
      var text := "C" + Coords(p1) + " " + Coords(p2) + " " + Coords(p);
      assert text == Text(Cubic(p1, p2, p));
      buf := buf + text;
      SerializeSnoc(cmds, Cubic(p1, p2, p));
      cmds := cmds + [Cubic(p1, p2, p)];
    }

    /** `close` (src/main.rs:63-65): appends exactly `Z`. */
    method Close()
      requires Valid()
      modifies this
      ensures Valid() && cmds == old(cmds) + [Command.Close]
      ensures buf == old(buf) + "Z"
    {
      buf := buf + "Z";
      SerializeSnoc(cmds, Command.Close);
      cmds := cmds + [Command.Close];
    }
  }
}
