/** The player-info overlay widget: each frame it either draws only its minimized frame, or sizes
    itself to the table, draws the frame, a header row and one row per hostile human player,
    nearest first. The canvas is modelled as the list of commands drawn on it. */
module Widget {
  import opened Wrappers
  import opened RowLayout
  import opened Players
  import opened Linq

  /** What is drawn on the canvas: the widget's frame (drawn with the size the widget has at that
      moment, in lines) or one line of text at a line index below the top of the table. */
  datatype Command =
    | Frame(minimized: bool, lines: int)
    | TextLine(line: nat, text: string, paint: Paint)

  class Canvas {
    var commands: seq<Command>

    constructor ()
      ensures commands == []
    {
      commands := [];
    }

    method DrawText(line: nat, text: string, paint: Paint)
      modifies this
      ensures commands == old(commands) + [TextLine(line, text, paint)]
    {
      commands := commands + [TextLine(line, text, paint)];
    }
  }

  /** The players listed, nearest first: those that are human, hostile and active, stably
      ordered by squared distance to the local player. */
  function ListedPlayers(localPos: Vec3, players: seq<Player>): (r: seq<Player>)
    ensures |r| <= |players|
  {
    OrderBy(Where(players, (p: Player) => p.isHumanHostileActive),
            (p: Player) => DistanceSquared(localPos, p.position))
  }

  /** One line of the table below the header: the row text (nothing when laying the row out
      throws) and the paint it is drawn with. */
  datatype Line = Line(text: Option<string>, paint: Paint)

  /** The line of player `p`. */
  function PlayerLine(localPos: Vec3, p: Player, formatNumberKM: int -> string): Line
  {
    Line(Row(Columns(Fields(localPos, p, formatNumberKM))), GetTextPaint(p))
  }

  /** `f` applied to each element of `s`, in order. */
  function Map<A, B>(f: A -> B, s: seq<A>): (r: seq<B>)
    ensures |r| == |s|
  {
    if s == [] then [] else [f(s[0])] + Map(f, s[1..])
  }

  lemma {:induction false} MapAt<A, B>(f: A -> B, s: seq<A>, i: nat)
    requires i < |s|
    ensures Map(f, s)[i] == f(s[i])
  {
    if i > 0 {
      MapAt(f, s[1..], i - 1);
    }
  }

  /** The lines of the players `ps`, in order. */
  function PlayerLines(localPos: Vec3, ps: seq<Player>, formatNumberKM: int -> string): (r: seq<Line>)
    ensures |r| == |ps|
  {
    Map((p: Player) => PlayerLine(localPos, p, formatNumberKM), ps)
  }

  lemma PlayerLineAt(localPos: Vec3, ps: seq<Player>, formatNumberKM: int -> string, i: nat)
    requires i < |ps|
    ensures PlayerLines(localPos, ps, formatNumberKM)[i] == PlayerLine(localPos, ps[i], formatNumberKM)
  {
    MapAt((p: Player) => PlayerLine(localPos, p, formatNumberKM), ps, i);
  }

  ghost predicate AllRowsFit(lines: seq<Line>)
  {
    forall i :: 0 <= i < |lines| ==> lines[i].text.Some?
  }

  /** The text drawn for `lines` from line index `first` on: one command per line, in order, up
      to the first line whose row throws. */
  function Commands(lines: seq<Line>, first: nat): seq<Command>
  {
    if lines == [] then []
    else if lines[0].text.None? then []
    else Drawn(lines[0], first) + Commands(lines[1..], first + 1)
  }

  lemma TakeOneMore<T>(s: seq<T>, i: nat)
    requires i < |s|
    ensures s[..i + 1] == s[..i] + [s[i]]
  {
  }

  /** The text drawn for one line at line index `line`: its row, or nothing when the row throws. */
  function Drawn(l: Line, line: nat): seq<Command>
  {
    if l.text.Some? then [TextLine(line, l.text.value, l.paint)] else []
  }

  /** Drawing one more line after lines whose rows all fit appends that line's text, if any. */
  lemma {:induction false} CommandsSnoc(lines: seq<Line>, l: Line, first: nat)
    requires AllRowsFit(lines)
    ensures Commands(lines + [l], first) == Commands(lines, first) + Drawn(l, first + |lines|)
  {
    if lines != [] {
      assert (lines + [l])[1..] == lines[1..] + [l];
      assert lines[0].text.Some?;
      CommandsSnoc(lines[1..], l, first + 1);
    }
  }

  /** One pass of the row loop, on commands: drawing line `i` after lines that all fit extends
      the drawn text by that line's row; a row that throws ends the table there. */
  lemma RowStep(start: seq<Command>, lines: seq<Line>, i: nat, before: seq<Command>, after: seq<Command>)
    requires i < |lines| && AllRowsFit(lines[..i])
    requires before == start + Commands(lines[..i], 1)
    requires after == before + Drawn(lines[i], 1 + i)
    ensures after == start + Commands(lines[..i + 1], 1)
    ensures lines[i].text.Some? ==> AllRowsFit(lines[..i + 1])
    ensures lines[i].text.None? ==> !AllRowsFit(lines) && after == start + Commands(lines, 1)
  {
    StepCommands(start, lines, i);
    if lines[i].text.None? {
      CommandsStop(lines, i, 1);
    } else {
      StepFits(lines, i);
    }
  }

  lemma StepCommands(start: seq<Command>, lines: seq<Line>, i: nat)
    requires i < |lines| && AllRowsFit(lines[..i])
    ensures start + Commands(lines[..i], 1) + Drawn(lines[i], 1 + i) == start + Commands(lines[..i + 1], 1)
  {
    var front := lines[..i];
    calc {
      start + Commands(front, 1) + Drawn(lines[i], 1 + i);
      start + (Commands(front, 1) + Drawn(lines[i], 1 + |front|));
      { CommandsSnoc(front, lines[i], 1); }
      start + Commands(front + [lines[i]], 1);
      { TakeOneMore(lines, i); }
      start + Commands(lines[..i + 1], 1);
    }
  }

  lemma StepFits(lines: seq<Line>, i: nat)
    requires i < |lines| && AllRowsFit(lines[..i]) && lines[i].text.Some?
    ensures AllRowsFit(lines[..i + 1])
  {
    TakeOneMore(lines, i);
  }

  /** Once a row throws, nothing after it is drawn, and not every row fits. */
  lemma {:induction false} CommandsStop(lines: seq<Line>, i: nat, first: nat)
    requires i < |lines| && lines[i].text.None?
    ensures !AllRowsFit(lines)
    ensures Commands(lines, first) == Commands(lines[..i], first)
  {
    if i > 0 {
      assert lines[..i][1..] == lines[1..][..i - 1];
      CommandsStop(lines[1..], i - 1, first + 1);
    }
  }

  /** When every row fits, one text command is drawn per line, in order, at consecutive line
      indices, each with the line's text and paint. */
  lemma {:induction false} CommandsAll(lines: seq<Line>, first: nat)
    requires AllRowsFit(lines)
    ensures |Commands(lines, first)| == |lines|
    ensures forall i :: 0 <= i < |lines| ==>
      Commands(lines, first)[i] == TextLine(first + i, lines[i].text.value, lines[i].paint)
  {
    if lines != [] {
      assert lines[0].text.Some?;
      CommandsAll(lines[1..], first + 1);
    }
  }

  /** When every player's row fits, row `i` of the table (line `i + 1`) is player `i`'s row text
      in that player's paint. */
  lemma PlayerRowsDrawn(localPos: Vec3, ps: seq<Player>, formatNumberKM: int -> string)
    requires forall i :: 0 <= i < |ps| ==> Row(Columns(Fields(localPos, ps[i], formatNumberKM))).Some?
    ensures AllRowsFit(PlayerLines(localPos, ps, formatNumberKM))
    ensures |Commands(PlayerLines(localPos, ps, formatNumberKM), 1)| == |ps|
    ensures forall i :: 0 <= i < |ps| ==>
      Commands(PlayerLines(localPos, ps, formatNumberKM), 1)[i] ==
        TextLine(i + 1, Row(Columns(Fields(localPos, ps[i], formatNumberKM))).value, GetTextPaint(ps[i]))
  {
    var lines := PlayerLines(localPos, ps, formatNumberKM);
    forall i | 0 <= i < |ps|
      ensures lines[i] == PlayerLine(localPos, ps[i], formatNumberKM)
    {
      PlayerLineAt(localPos, ps, formatNumberKM, i);
    }
    CommandsAll(lines, 1);
  }

  /** The listed players are exactly the human, hostile, active input players, each as often as
      it occurs in the input; they are ordered by nondecreasing squared distance to the local
      player, and the listed players at squared distance `d` are the input players at that
      distance that are human, hostile and active, in input order. */
  lemma ListedPlayersSpec(localPos: Vec3, players: seq<Player>, p: Player, d: int)
    ensures multiset(ListedPlayers(localPos, players))[p] == if p.isHumanHostileActive then multiset(players)[p] else 0
    ensures forall i, j :: 0 <= i < j < |ListedPlayers(localPos, players)| ==>
      DistanceSquared(localPos, ListedPlayers(localPos, players)[i].position)
        <= DistanceSquared(localPos, ListedPlayers(localPos, players)[j].position)
    ensures WithKey(ListedPlayers(localPos, players), (q: Player) => DistanceSquared(localPos, q.position), d)
         == Where(WithKey(players, (q: Player) => DistanceSquared(localPos, q.position), d), (q: Player) => q.isHumanHostileActive)
  {
    var hostile := (q: Player) => q.isHumanHostileActive;
    var key := (q: Player) => DistanceSquared(localPos, q.position);
    OrderByPermutes(Where(players, hostile), key);
    WhereCount(players, hostile, p);
    OrderBySorted(Where(players, hostile), key);
    OrderByStable(Where(players, hostile), key, d);
    WhereWithKey(players, hostile, key, d);
  }

  /** Every listed player is one of the input players and is human, hostile and active. */
  lemma ListedPlayerFrom(localPos: Vec3, players: seq<Player>, i: nat)
    requires i < |ListedPlayers(localPos, players)|
    ensures ListedPlayers(localPos, players)[i] in players
    ensures ListedPlayers(localPos, players)[i].isHumanHostileActive
  {
    var p := ListedPlayers(localPos, players)[i];
    ListedPlayersSpec(localPos, players, p, 0);
    assert p in multiset(ListedPlayers(localPos, players));
  }

  /** Every row is drawn exactly when no human, hostile, active player who is observed is 100000
      units or more away: such a player is always listed, and its row throws. */
  lemma AllRowsDrawn(localPos: Vec3, players: seq<Player>, formatNumberKM: int -> string)
    ensures AllRowsFit(PlayerLines(localPos, ListedPlayers(localPos, players), formatNumberKM)) <==>
      forall p :: p in players && p.isHumanHostileActive && p.detail.Observed? ==> Distance(p.position, localPos) < 100000
  {
    var listed := ListedPlayers(localPos, players);
    var lines := PlayerLines(localPos, listed, formatNumberKM);
    if forall p :: p in players && p.isHumanHostileActive && p.detail.Observed? ==> Distance(p.position, localPos) < 100000 {
      forall i | 0 <= i < |lines|
        ensures lines[i].text.Some?
      {
        ListedPlayerFrom(localPos, players, i);
        PlayerLineAt(localPos, listed, formatNumberKM, i);
        DistanceOverflow(localPos, listed[i], formatNumberKM);
      }
    } else {
      var p :| p in players && p.isHumanHostileActive && p.detail.Observed? && Distance(p.position, localPos) >= 100000;
      ListedPlayersSpec(localPos, players, p, 0);
      assert p in multiset(listed);
      var i :| 0 <= i < |listed| && listed[i] == p;
      PlayerLineAt(localPos, listed, formatNumberKM, i);
      DistanceOverflow(localPos, p, formatNumberKM);
    }
  }

  class PlayerInfoWidget {
    /** Whether only the minimized frame is drawn. */
    var minimized: bool
    /** The widget's height, in lines of the table font. */
    var sizeLines: int

    constructor (minimized: bool, sizeLines: int)
      ensures this.minimized == minimized && this.sizeLines == sizeLines
    {
      this.minimized := minimized;
      this.sizeLines := sizeLines;
    }

    /** The base widget's frame drawing, with the current size and state. */
    method DrawFrame(canvas: Canvas)
      modifies canvas
      ensures canvas.commands == old(canvas.commands) + [Frame(minimized, sizeLines)]
    {
      canvas.commands := canvas.commands + [Frame(minimized, sizeLines)];
    }

    /** `Draw`: a minimized widget only draws its frame and keeps its size. Otherwise the widget
        takes the height of the header plus one line per listed player, draws its frame with that
        height, the header at line 0 in the plain overlay paint, then the listed players' rows in
        order from line 1. `completed` is false when a row throws: the rows before it stay drawn. */
    method Draw(canvas: Canvas, localPos: Vec3, players: seq<Player>, formatNumberKM: int -> string)
      returns (completed: bool)
      modifies this, canvas
      ensures minimized == old(minimized)
      ensures old(minimized) ==>
        sizeLines == old(sizeLines) && completed &&
        canvas.commands == old(canvas.commands) + [Frame(true, old(sizeLines))]
      ensures !old(minimized) ==>
        var listed := ListedPlayers(localPos, players);
        var lines := PlayerLines(localPos, listed, formatNumberKM);
        sizeLines == 1 + |listed| &&
        completed == AllRowsFit(lines) &&
        canvas.commands == old(canvas.commands) + [Frame(false, 1 + |listed|), TextLine(0, Header, TextPlayersOverlay)]
          + Commands(lines, 1)
    {
      if minimized {
        DrawFrame(canvas);
        return true;
      }
      var listed := ListedPlayers(localPos, players);
      completed := DrawTable(canvas, localPos, listed, formatNumberKM);
    }

    /** `Draw` of a widget that is not minimized, once the players are filtered and sorted into
        `listed`: make the header, size the widget to the header and one line per listed player,
        draw the frame, the header and the rows. */
    method DrawTable(canvas: Canvas, localPos: Vec3, listed: seq<Player>, formatNumberKM: int -> string)
      returns (completed: bool)
      requires !minimized
      modifies this, canvas
      ensures minimized == old(minimized)
      ensures sizeLines == 1 + |listed|
      ensures completed == AllRowsFit(PlayerLines(localPos, listed, formatNumberKM))
      ensures canvas.commands == old(canvas.commands) + [Frame(false, 1 + |listed|), TextLine(0, Header, TextPlayersOverlay)]
        + Commands(PlayerLines(localPos, listed, formatNumberKM), 1)
    {
      var header := MakeHeader();
      sizeLines := 1 + |listed|;
      DrawFrame(canvas);
      canvas.DrawText(0, header, TextPlayersOverlay);
      AppendTwo(old(canvas.commands), Frame(false, 1 + |listed|), TextLine(0, Header, TextPlayersOverlay));
      completed := DrawRows(canvas, localPos, listed, formatNumberKM);
    }
  }

  /** The header row of the table, made with `MakeRow` from the column titles. */
  method MakeHeader() returns (header: string)
    ensures header == Header
    ensures |header| == RowLength
  {
    var row := MakeRow("Grp", "Name", "In Hands", "Secure", "Value", "Dist");
    HeaderRow();
    header := row.value;
  }

  lemma AppendTwo<T>(s: seq<T>, x: T, y: T)
    ensures s + [x] + [y] == s + [x, y]
  {
  }

  /** The rows of `Draw`, from line 1: each listed player's row in its paint, in order, stopping
      at the first row that throws; `completed` says whether every row was drawn. */
  method DrawRows(canvas: Canvas, localPos: Vec3, listed: seq<Player>, formatNumberKM: int -> string)
    returns (completed: bool)
    modifies canvas
    ensures completed == AllRowsFit(PlayerLines(localPos, listed, formatNumberKM))
    ensures canvas.commands == old(canvas.commands) + Commands(PlayerLines(localPos, listed, formatNumberKM), 1)
  {
    ghost var lines := PlayerLines(localPos, listed, formatNumberKM);
    var line, i := 1, 0;
    while i < |listed|
      invariant 0 <= i <= |listed| && line == 1 + i
      invariant AllRowsFit(lines[..i])
      invariant canvas.commands == old(canvas.commands) + Commands(lines[..i], 1)
    {
      ghost var before := canvas.commands;
      var drawn := DrawPlayerRow(canvas, line, localPos, listed, i, formatNumberKM);
      RowStep(old(canvas.commands), lines, i, before, canvas.commands);
      if !drawn {
        return false;
      }
      line, i := line + 1, i + 1;
    }
    assert lines[..i] == lines;
    completed := true;
  }

  /** One pass of the row loop, for the player at index `i`: the player's column texts, laid out
      by `MakeRow` and drawn at `line` in the player's paint; nothing is drawn when the layout
      throws. */
  method DrawPlayerRow(canvas: Canvas, line: nat, localPos: Vec3, listed: seq<Player>, i: nat, formatNumberKM: int -> string)
    returns (drawn: bool)
    requires i < |listed|
    modifies canvas
    ensures drawn == PlayerLines(localPos, listed, formatNumberKM)[i].text.Some?
    ensures canvas.commands == old(canvas.commands) + Drawn(PlayerLines(localPos, listed, formatNumberKM)[i], line)
  {
    var p := listed[i];
    PlayerLineAt(localPos, listed, formatNumberKM, i);
    var f := Fields(localPos, p, formatNumberKM);
    var row := MakeRow(f.grp, f.name, f.hands, f.secure, f.value, f.dist);
    if row.None? {
      return false;
    }
    canvas.DrawText(line, row.value, GetTextPaint(p));
    drawn := true;
  }
}
