/** The per-frame view of a player that the widget reads, the text of each column of a player's
    row, and the paint a row is drawn with. */
module Players {
  import opened Wrappers
  import opened Text
  import opened RowLayout

  /** A world position; coordinates are whole game units. */
  datatype Vec3 = Vec3(x: int, y: int, z: int)

  datatype PlayerType = PMC | PScav | OtherType

  /** The equipment snapshot of an observed player: short names of the item in hands and of the
      secured container (absent when there is no such item) and the total value of the gear. */
  datatype Equipment = Equipment(inHands: Option<string>, securedContainer: Option<string>, value: int)

  /** Whether the player is an observed player, whose equipment snapshot may be absent. */
  datatype Detail = Unobserved | Observed(equipment: Option<Equipment>)

  /** The group id -1 means "no group". */
  const NoGroup: int := -1

  /** What the widget reads of a player in one frame. */
  datatype Player = Player(
    name: Option<string>,
    position: Vec3,
    groupId: int,
    isHumanHostileActive: bool,
    isFocused: bool,
    kind: PlayerType,
    detail: Detail)

  /** Text shown for anything that is missing. */
  const Placeholder: string := "--"

  function OrPlaceholder(s: Option<string>): string
  {
    match s
    case Some(v) => v
    case None => Placeholder
  }

  /** Squared straight-line distance, the sort key of the table. */
  function DistanceSquared(a: Vec3, b: Vec3): (d: nat)
    ensures d == 0 <==> a == b
  {
    var dx, dy, dz := a.x - b.x, a.y - b.y, a.z - b.z;
    dx * dx + dy * dy + dz * dz
  }

  /** Integer square root: the largest `r` with `r * r <= n`. */
  function Isqrt(n: nat): (r: nat)
    ensures r * r <= n < (r + 1) * (r + 1)
  {
    if n < 4 then (if n == 0 then 0 else 1)
    else
      var h := Isqrt(n / 4);
      IsqrtStep(n, h);
      if (2 * h + 1) * (2 * h + 1) <= n then 2 * h + 1 else 2 * h
  }

  lemma IsqrtStep(n: nat, h: nat)
    requires h * h <= n / 4 < (h + 1) * (h + 1)
    ensures (2 * h) * (2 * h) <= n < (2 * h + 2) * (2 * h + 2)
  {
    var q := n / 4;
    assert n < 4 * q + 4;
    var a, b := h * h, (h + 1) * (h + 1);
    assert (2 * h) * (2 * h) == 4 * a;
    assert (2 * h + 2) * (2 * h + 2) == 4 * b;
    assert q + 1 <= b;
  }

  /** The distance shown in a row: the straight-line distance with its fraction dropped. */
  function Distance(a: Vec3, b: Vec3): (d: nat)
    ensures d * d <= DistanceSquared(a, b) < (d + 1) * (d + 1)
    ensures d == 0 <==> a == b
  {
    Isqrt(DistanceSquared(a, b))
  }

  /** The six texts of one row, in column order. */
  datatype RowFields = RowFields(grp: string, name: string, hands: string, secure: string, value: string, dist: string)

  function Columns(f: RowFields): (cols: seq<string>)
    ensures |cols| == |Widths|
  {
    [f.grp, f.name, f.hands, f.secure, f.value, f.dist]
  }

  /** The column texts of a player's row. Every player shows its name (or "--") cut to 8
      characters and its group id cut to 4, or "--" without a group. Only an observed player shows
      equipment: the item in hands cut to 15, the secured container cut to 8, the gear value
      formatted by `formatNumberKM` (0 without a snapshot) cut to 6, and the distance to the local
      player cut to 6; any other player shows "--" in those four columns. */
  function Fields(localPos: Vec3, p: Player, formatNumberKM: int -> string): (f: RowFields)
    ensures |f.grp| <= 4 && |f.name| <= 8 && |f.hands| <= 15
    ensures |f.secure| <= 8 && |f.value| <= 6 && |f.dist| <= 6
    ensures f.name == Truncate(OrPlaceholder(p.name), 8)
    ensures p.detail.Unobserved? ==>
      f.hands == Placeholder && f.secure == Placeholder && f.value == Placeholder && f.dist == Placeholder
    ensures p.detail == Observed(None) ==>
      f.hands == Placeholder && f.secure == Placeholder && f.value == Truncate(formatNumberKM(0), 6)
    ensures p.detail.Observed? && p.detail.equipment.Some? ==>
      var e := p.detail.equipment.value;
      f.hands == Truncate(OrPlaceholder(e.inHands), 15) && f.secure == Truncate(OrPlaceholder(e.securedContainer), 8) &&
      f.value == Truncate(formatNumberKM(e.value), 6)
    ensures p.detail.Observed? ==> f.dist == Truncate(DecimalText(Distance(p.position, localPos)), 6)
  {
    var name := Truncate(OrPlaceholder(p.name), 8);
    var grp := if p.groupId != NoGroup then Truncate(DecimalText(p.groupId), 4) else Placeholder;
    match p.detail
    case Unobserved => RowFields(grp, name, Placeholder, Placeholder, Placeholder, Placeholder)
    case Observed(equipment) =>
      var hands := match equipment
        case Some(e) => OrPlaceholder(e.inHands)
        case None => Placeholder;
      var secure := match equipment
        case Some(e) => OrPlaceholder(e.securedContainer)
        case None => Placeholder;
      var value := match equipment
        case Some(e) => e.value
        case None => 0;
      RowFields(grp, name,
        Truncate(hands, 15),
        Truncate(secure, 8),
        Truncate(formatNumberKM(value), 6),
        Truncate(DecimalText(Distance(p.position, localPos)), 6))
  }

  /** The group column shows "--" exactly for players without a group, and otherwise the
      group id's decimal text cut to 4 characters. */
  lemma GroupColumn(localPos: Vec3, p: Player, formatNumberKM: int -> string)
    ensures Fields(localPos, p, formatNumberKM).grp == Placeholder <==> p.groupId == NoGroup
    ensures p.groupId != NoGroup ==> Fields(localPos, p, formatNumberKM).grp == Truncate(DecimalText(p.groupId), 4)
  {
    DecimalTextNotPlaceholder(p.groupId, 4);
  }

  /** A player's row can be laid out exactly when its distance text has at most 5 characters:
      every other column's text is short enough for the row. */
  lemma RowFitsIffShortDistance(localPos: Vec3, p: Player, formatNumberKM: int -> string)
    ensures RowFits(Columns(Fields(localPos, p, formatNumberKM))) <==> |Fields(localPos, p, formatNumberKM).dist| <= DistWidth
  {
    var cols := Columns(Fields(localPos, p, formatNumberKM));
    if |cols[5]| <= DistWidth {
      assert forall k :: 0 <= k < |Widths| ==> FieldFits(k, cols[k]);
    } else {
      assert !FieldFits(5, cols[5]);
    }
  }

  /** An observed player at least 100000 units away gets a six-digit distance, whose padding
      slice starts past the end of the row: no row is produced for it. Closer players, and all
      players that are not observed, always get a row. */
  lemma DistanceOverflow(localPos: Vec3, p: Player, formatNumberKM: int -> string)
    ensures Row(Columns(Fields(localPos, p, formatNumberKM))).None?
        <==> p.detail.Observed? && Distance(p.position, localPos) >= 100000
  {
    RowFitsIffShortDistance(localPos, p, formatNumberKM);
    if p.detail.Observed? {
      var d := Distance(p.position, localPos);
      assert Pow10(5) == 100000;
      if d >= 100000 {
        NatTextLength(d, 5, 100000);
      } else {
        NatTextShort(d, 5);
      }
    }
  }

  /** The in-hands text is cut to 15 characters but its column is 12 wide: the row shows the
      first 12 characters of the item name, and nothing spills into the secure column. */
  lemma HandsColumnNoBleed(localPos: Vec3, p: Player, formatNumberKM: int -> string, e: Equipment)
    requires p.detail == Observed(Some(e))
    requires Row(Columns(Fields(localPos, p, formatNumberKM))).Some?
    ensures Row(Columns(Fields(localPos, p, formatNumberKM))).value[Offsets[2]..Offsets[3]]
         == Cell(OrPlaceholder(e.inHands), HandsWidth)
  {
    var cols := Columns(Fields(localPos, p, formatNumberKM));
    var h := OrPlaceholder(e.inHands);
    assert cols[2] == Truncate(h, 15);
    RowColumns(cols, 2);
    CellOfTruncate(h, HandsWidth, 15);
  }

  /** The four paints of the table. */
  datatype Paint = TextPlayersOverlay | TextPlayersOverlayFocused | TextPlayersOverlayPMC | TextPlayersOverlayPScav

  /** `GetTextPaint`: a focused player is always drawn with the focused paint; any other player
      with the PMC paint if it is a PMC, the player-scav paint if it is a player scav, and the
      plain overlay paint otherwise. */
  function GetTextPaint(p: Player): (paint: Paint)
    ensures paint == TextPlayersOverlayFocused <==> p.isFocused
    ensures paint == TextPlayersOverlayPMC <==> !p.isFocused && p.kind == PMC
    ensures paint == TextPlayersOverlayPScav <==> !p.isFocused && p.kind == PScav
    ensures paint == TextPlayersOverlay <==> !p.isFocused && p.kind == OtherType
  {
    if p.isFocused then TextPlayersOverlayFocused
    else match p.kind
      case PMC => TextPlayersOverlayPMC
      case PScav => TextPlayersOverlayPScav
      case OtherType => TextPlayersOverlay
  }
}
