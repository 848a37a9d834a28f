/** The hash table of the lossless pseudo-quantizer, as a value: open addressing with linear
    probing, and the way palette places are shared between reserve and image colours. */
module ColorTable {
  import opened CArith

  type Color = Dword

  const EMPTY_BUCKET: Color := 0xFFFF_FFFF
  const MAX_SIZE := 256
  const MAP_SIZE := 512

  datatype MapEntry = MapEntry(color: Color, index: nat)
  const EMPTY_ENTRY := MapEntry(EMPTY_BUCKET, 0xFFFF_FFFF)

  /** One source pixel.  `fourth` is the byte that follows the three colour bytes in memory: the
      alpha byte of a 32-bit image, the next pixel's first byte (or padding) in a 24-bit one. */
  datatype Pixel = Pixel(blue: Byte, green: Byte, red: Byte, fourth: Byte)

  function Rgb(p: Pixel): Color {
    p.blue + 0x100 * p.green + 0x1_0000 * p.red
  }

  /** The four bytes read at once as a little-endian dword. */
  function RawDword(p: Pixel): Color {
    Rgb(p) + 0x100_0000 * p.fourth
  }

  /** The bit mask 0x00FFFFFF. */
  function MaskRgb(c: Color): Color {
    c % 0x100_0000
  }

  /** A masked read gives the three colour bytes, whatever byte follows them. */
  lemma MaskDropsFourthByte(p: Pixel)
    ensures MaskRgb(RawDword(p)) == Rgb(p) != EMPTY_BUCKET
  {
  }

  /** A colour tells the three bytes. */
  lemma ColorTellsBytes(p: Pixel, q: Pixel)
    ensures Rgb(p) == Rgb(q) <==> p.blue == q.blue && p.green == q.green && p.red == q.red
  {
    BytesOfRgb(p);
    BytesOfRgb(q);
  }

  lemma BytesOfRgb(p: Pixel)
    ensures p.blue == Rgb(p) % 0x100 && p.green == Rgb(p) / 0x100 % 0x100 && p.red == Rgb(p) / 0x1_0000
  {
    var b: int, g: int, r: int := p.blue, p.green, p.red;
    assert Rgb(p) == 0x100 * (g + 0x100 * r) + b;
    assert Rgb(p) / 0x100 == g + 0x100 * r;
  }

  datatype Image = Image(bpp: nat, width: nat, height: nat, rows: seq<seq<Pixel>>) {
    ghost predicate Valid() {
      && bpp in {24, 32} && 0 < width && 0 < height
      && |rows| == height && forall y :: 0 <= y < height ==> |rows[y]| == width
    }

    function Color(y: nat, x: nat): Color
      requires Valid() && y < height && x < width
    {
      Rgb(rows[y][x])
    }

    /** The set of distinct colours of the image. */
    ghost function Colors(): set<Color>
      requires Valid()
    {
      set y: nat, x: nat | y < height && x < width :: Color(y, x)
    }

    lemma ColorIsListed(y: nat, x: nat)
      requires Valid() && y < height && x < width
      ensures Color(y, x) in Colors() && Color(y, x) != EMPTY_BUCKET
    {
    }
  }

  function Hash(color: Color): bv32 {
    var h := color as bv32;
    var g := h ^ ((h >> 20) ^ (h >> 12));
    g ^ (g >> 7) ^ (g >> 4)
  }

  function Bucket(color: Color): Slot {
    ((Hash(color) & 511) as bv9) as nat
  }

  // ---------- the table as a value ----------

  // The table's properties hold for every hash function; `Bucket` is the one in use.
  type Slot = s: nat | s < MAP_SIZE
  type HashFunction = Color -> Slot

  type Table = s: seq<MapEntry> | |s| == MAP_SIZE witness seq(MAP_SIZE, _ => EMPTY_ENTRY)

  /** Steps from slot a to slot b, going up and around. */
  function Steps(a: nat, b: nat): nat
    requires a < MAP_SIZE && b < MAP_SIZE
  {
    if b >= a then b - a else b - a + MAP_SIZE
  }

  function NextSlot(b: Slot): (next: Slot)
    ensures next == if b == MAP_SIZE - 1 then 0 else b + 1
  {
    (b + 1) % MAP_SIZE
  }

  /** Going one slot up adds one step and leaves one step less to every other slot. */
  lemma OneStep(home: Slot, b: Slot, free: Slot)
    requires Steps(home, b) + Steps(b, free) == Steps(home, free) && b != free
    ensures Steps(home, NextSlot(b)) == Steps(home, b) + 1
    ensures Steps(NextSlot(b), free) == Steps(b, free) - 1
    ensures forall t: Slot :: Steps(home, t) < Steps(home, NextSlot(b)) ==> t == b || Steps(home, t) < Steps(home, b)
  {
  }

  ghost predicate Full(m: Table, s: nat)
    requires s < MAP_SIZE
  {
    m[s].color != EMPTY_BUCKET
  }

  /** Every slot met before `s` on the way up from `home` is taken. */
  ghost predicate Reachable(m: Table, home: nat, s: nat)
    requires home < MAP_SIZE && s < MAP_SIZE
  {
    forall t: nat :: t < MAP_SIZE && Steps(home, t) < Steps(home, s) ==> Full(m, t)
  }

  /** The invariant of linear probing: keys are distinct and each is reachable from its bucket. */
  ghost predicate ProbingOk(m: Table, home: HashFunction) {
    && (forall s: nat, t: nat :: s < t < MAP_SIZE && Full(m, s) && Full(m, t) ==> m[s].color != m[t].color)
    && (forall s: nat :: s < MAP_SIZE && Full(m, s) ==> Reachable(m, home(m[s].color), s))
  }

  /** The table holds exactly the pairs of `contents`. */
  ghost predicate Represents(m: Table, contents: map<Color, nat>) {
    && (forall s: nat :: s < MAP_SIZE && Full(m, s) ==>
          m[s].color in contents && contents[m[s].color] == m[s].index)
    && (forall c :: c in contents ==> c != EMPTY_BUCKET && InTable(m, c))
  }

  ghost predicate InTable(m: Table, c: Color) {
    exists s: Slot :: m[s].color == c
  }

  lemma SubsetSize<T>(a: set<T>, b: set<T>)
    requires a <= b
    ensures |a| <= |b|
  {
    assert b == a + (b - a);
  }

  /** The taken slots below slot k. */
  ghost function FullBelow(m: Table, k: nat): set<Slot> {
    set s: Slot | s < k && Full(m, s)
  }

  ghost function ColorsBelow(m: Table, k: nat): set<Color> {
    set s: Slot | s < k && Full(m, s) :: m[s].color
  }

  lemma OneSlotMore(m: Table, k: Slot)
    ensures FullBelow(m, k + 1) == if Full(m, k) then FullBelow(m, k) + {k} else FullBelow(m, k)
    ensures ColorsBelow(m, k + 1) == if Full(m, k) then ColorsBelow(m, k) + {m[k].color} else ColorsBelow(m, k)
  {
  }

  lemma ColorNotBelow(m: Table, home: HashFunction, k: Slot)
    requires ProbingOk(m, home) && Full(m, k)
    ensures m[k].color !in ColorsBelow(m, k)
  {
  }

  /** Taken slots hold distinct colours of the map. */
  lemma {:induction false} FullSlotsAreColors(m: Table, home: HashFunction, contents: map<Color, nat>, k: nat)
    requires k <= MAP_SIZE && ProbingOk(m, home) && Represents(m, contents)
    ensures |FullBelow(m, k)| == |ColorsBelow(m, k)|
    ensures ColorsBelow(m, k) <= contents.Keys
  {
    hide *;
    if k == 0 {
      NothingBelow(m);
    } else {
      FullSlotsAreColors(m, home, contents, k - 1);
      OneSlotMore(m, k - 1);
      if Full(m, k - 1) {
        ColorNotBelow(m, home, k - 1);
        EntryOfSlot(m, contents, k - 1);
        SlotNotBelow(m, k - 1);
      }
    }
  }

  lemma NothingBelow(m: Table)
    ensures FullBelow(m, 0) == {} && ColorsBelow(m, 0) == {}
  {
  }

  lemma SlotNotBelow(m: Table, k: Slot)
    ensures k !in FullBelow(m, k)
  {
  }

  lemma {:induction false} AllFull(m: Table, k: nat)
    requires k <= MAP_SIZE && forall s: Slot :: Full(m, s)
    ensures |FullBelow(m, k)| == k
  {
    if k == 0 {
      assert FullBelow(m, k) == {};
    } else {
      AllFull(m, k - 1);
      assert FullBelow(m, k) == FullBelow(m, k - 1) + {k - 1};
    }
  }

  /** A table that represents fewer than 512 colours has a free slot, so every probe ends. */
  lemma FreeSlotExists(m: Table, home: HashFunction, contents: map<Color, nat>) returns (e: Slot)
    requires ProbingOk(m, home) && Represents(m, contents) && |contents| < MAP_SIZE
    ensures !Full(m, e)
  {
    if forall s: Slot :: Full(m, s) {
      AllFull(m, MAP_SIZE);
      FullSlotsAreColors(m, home, contents, MAP_SIZE);
      SubsetSize(ColorsBelow(m, MAP_SIZE), contents.Keys);
      assert false;
    } else {
      e :| !Full(m, e);
    }
  }

  /** A probe for colour c that has come up to slot b met taken slots only, none of them c's. */
  ghost predicate Passed(m: Table, home: Slot, b: Slot, c: Color) {
    forall t: Slot :: Steps(home, t) < Steps(home, b) ==> Full(m, t) && m[t].color != c
  }

  /** A colour whose probe runs into a free slot is not in the table. */
  lemma AbsentAtFreeSlot(m: Table, home: HashFunction, contents: map<Color, nat>, c: Color, b: nat)
    requires ProbingOk(m, home) && Represents(m, contents) && b < MAP_SIZE && !Full(m, b)
    requires Passed(m, home(c), b, c)
    requires c != EMPTY_BUCKET
    ensures c !in contents
  {
    assert forall s: Slot :: m[s].color == c ==> Full(m, s) && Reachable(m, home(c), s);
    assert forall s: Slot :: Steps(home(c), s) == Steps(home(c), b) ==> s == b;
    assert forall s: Slot :: m[s].color != c;
  }

  lemma EntryOfSlot(m: Table, contents: map<Color, nat>, b: Slot)
    requires Represents(m, contents) && Full(m, b)
    ensures m[b].color in contents && contents[m[b].color] == m[b].index
  {
  }

  lemma SlotOfColor(m: Table, contents: map<Color, nat>, c: Color) returns (s: Slot)
    requires Represents(m, contents) && c in contents
    ensures Full(m, s) && m[s].color == c && contents[c] == m[s].index
  {
    assert InTable(m, c);
    s :| m[s].color == c;
  }

  /** Storing a new colour where its probe found a free slot keeps the invariant. */
  lemma InsertKeepsProbing(m: Table, home: HashFunction, contents: map<Color, nat>, c: Color, b: nat, index: nat)
    requires ProbingOk(m, home) && Represents(m, contents) && b < MAP_SIZE && !Full(m, b)
    requires c != EMPTY_BUCKET && c !in contents && Reachable(m, home(c), b)
    ensures ProbingOk(m[b := MapEntry(c, index)], home)
    ensures Represents(m[b := MapEntry(c, index)], contents[c := index])
  {
    InsertKeepsReach(m, home, contents, c, b, index);
    InsertRepresents(m, contents, c, b, index);
  }

  lemma InsertKeepsReach(m: Table, home: HashFunction, contents: map<Color, nat>, c: Color, b: nat, index: nat)
    requires ProbingOk(m, home) && Represents(m, contents) && b < MAP_SIZE && !Full(m, b)
    requires c != EMPTY_BUCKET && c !in contents && Reachable(m, home(c), b)
    ensures ProbingOk(m[b := MapEntry(c, index)], home)
  {
    var m' := m[b := MapEntry(c, index)];
    forall s: nat | s < MAP_SIZE && Full(m', s)
      ensures Reachable(m', home(m'[s].color), s)
    {
      assert s != b ==> Full(m, s) && Reachable(m, home(m[s].color), s);
    }
  }

  lemma InsertRepresents(m: Table, contents: map<Color, nat>, c: Color, b: nat, index: nat)
    requires Represents(m, contents) && b < MAP_SIZE && !Full(m, b)
    requires c != EMPTY_BUCKET && c !in contents
    ensures Represents(m[b := MapEntry(c, index)], contents[c := index])
  {
    var m' := m[b := MapEntry(c, index)];
    assert m'[b].color == c;
    forall k | k in contents
      ensures InTable(m', k)
    {
      var s: Slot :| m[s].color == k;
      assert m'[s].color == k;
    }
  }

  // ---------- the reserve palette ----------

  /** The pairs inserted for the first n reserve entries: a repeated dword keeps its first index
      and the dword 0xFFFFFFFF is never inserted. */
  ghost function ReserveMap(palette: seq<Color>, n: nat, offset: nat): map<Color, nat>
    requires n <= |palette|
  {
    if n == 0 then map[]
    else
      var r := ReserveMap(palette, n - 1, offset);
      if palette[n - 1] == EMPTY_BUCKET || palette[n - 1] in r then r
      else r[palette[n - 1] := n - 1 + offset]
  }

  ghost predicate Injective(m: map<Color, nat>) {
    forall c, d :: c in m && d in m && m[c] == m[d] ==> c == d
  }

  /** The reserve dwords that end up in the table. */
  ghost function Inserted(palette: seq<Color>): set<Color> {
    (set i | 0 <= i < |palette| :: palette[i]) - {EMPTY_BUCKET}
  }

  lemma {:induction false} ReserveMapKeys(palette: seq<Color>, n: nat, offset: nat)
    requires n <= |palette|
    ensures ReserveMap(palette, n, offset).Keys == (set i | 0 <= i < n :: palette[i]) - {EMPTY_BUCKET}
  {
    if n > 0 {
      ReserveMapKeys(palette, n - 1, offset);
      assert (set i | 0 <= i < n :: palette[i]) == (set i | 0 <= i < n - 1 :: palette[i]) + {palette[n - 1]};
    }
  }

  lemma {:induction false} ReserveMapSize(palette: seq<Color>, n: nat, offset: nat)
    requires n <= |palette|
    ensures |ReserveMap(palette, n, offset)| <= n
  {
    if n > 0 {
      ReserveMapSize(palette, n - 1, offset);
    }
  }

  lemma InsertedKeys(palette: seq<Color>, offset: nat)
    ensures ReserveMap(palette, |palette|, offset).Keys == Inserted(palette)
  {
    ReserveMapKeys(palette, |palette|, offset);
  }

  /** Each colour's index names an entry of the reserve palette that holds this colour. */
  ghost predicate NamesItsEntry(r: map<Color, nat>, palette: seq<Color>, n: nat, offset: nat)
    requires n <= |palette|
  {
    forall c :: c in r ==> offset <= r[c] < offset + n && palette[r[c] - offset] == c
  }

  lemma {:induction false} ReserveMapValues(palette: seq<Color>, n: nat, offset: nat)
    requires n <= |palette|
    ensures NamesItsEntry(ReserveMap(palette, n, offset), palette, n, offset)
  {
    if n > 0 {
      ReserveMapValues(palette, n - 1, offset);
    }
  }

  /** Entry k of the reserve palette is the first one with its dword. */
  ghost predicate IsFirst(palette: seq<Color>, k: int) {
    0 <= k < |palette| && palette[k] != EMPTY_BUCKET && forall i :: 0 <= i < k ==> palette[i] != palette[k]
  }

  /** It keeps its place. */
  lemma {:induction false} FirstKeepsPlace(palette: seq<Color>, n: nat, offset: nat, k: nat)
    requires k < n <= |palette| && IsFirst(palette, k)
    ensures var r := ReserveMap(palette, n, offset);
      palette[k] in r && r[palette[k]] == offset + k
  {
    if k < n - 1 {
      FirstKeepsPlace(palette, n - 1, offset, k);
    } else {
      ReserveMapKeys(palette, k, offset);
    }
  }

  /** The reserve colours keep their order at the top of the palette; of equal ones the first counts. */
  ghost predicate ReserveStands(reserve: seq<Color>, palette: seq<Color>, limit: nat) {
    && |reserve| <= limit <= |palette|
    && forall k :: IsFirst(reserve, k) ==> palette[limit - |reserve| + k] == reserve[k]
  }

  lemma StandsWherePlaced(given: seq<Color>, reserve: map<Color, nat>, contents: map<Color, nat>, palette: seq<Color>,
                          limit: nat)
    requires |given| <= limit <= |palette| && reserve == ReserveMap(given, |given|, limit - |given|)
    requires forall c :: c in reserve ==> c in contents && contents[c] == reserve[c]
    requires forall c :: c in contents ==> contents[c] < |palette| && palette[contents[c]] == c
    ensures ReserveStands(given, palette, limit)
  {
    hide ReserveMap;
    forall k | IsFirst(given, k)
      ensures palette[limit - |given| + k] == given[k]
    {
      FirstKeepsPlace(given, |given|, limit - |given|, k);
      assert given[k] in reserve;
    }
  }

  // ---------- palette places ----------

  /** Reserve colours keep the top `reserved` places of the palette. */
  ghost predicate ReserveAtTop(contents: map<Color, nat>, reserve: map<Color, nat>, reserved: nat, limit: nat) {
    && (forall c :: c in reserve ==> c in contents && contents[c] == reserve[c])
    && (forall c :: c in reserve ==> limit - reserved <= reserve[c] < limit)
  }

  /** All other colours fill the places from 0 up. */
  ghost predicate OthersBelow(contents: map<Color, nat>, reserve: map<Color, nat>, index: nat) {
    forall c :: c in contents && c !in reserve ==> contents[c] < index
  }

  ghost predicate Counted(contents: map<Color, nat>, reserve: map<Color, nat>, reserved: nat, index: nat) {
    |reserve| <= reserved && |contents.Keys - reserve.Keys| == index
  }

  /** How the palette's places are shared out. */
  ghost predicate Accounted(contents: map<Color, nat>, reserve: map<Color, nat>, reserved: nat, index: nat, limit: nat)
  {
    && reserved + index <= limit
    && Counted(contents, reserve, reserved, index)
    && ReserveAtTop(contents, reserve, reserved, limit)
    && OthersBelow(contents, reserve, index)
    && Injective(contents)
  }

  lemma AccountedSize(contents: map<Color, nat>, reserve: map<Color, nat>, reserved: nat, index: nat, limit: nat)
    requires Accounted(contents, reserve, reserved, index, limit)
    ensures |contents| <= limit
    ensures forall c :: c in contents ==> contents[c] < limit
  {
    assert contents.Keys == (contents.Keys - reserve.Keys) + reserve.Keys;
    assert |contents.Keys| == |contents.Keys - reserve.Keys| + |reserve.Keys|;
  }

  lemma AccountNewColor(contents: map<Color, nat>, reserve: map<Color, nat>, reserved: nat, index: nat, limit: nat,
                        color: Color)
    requires Accounted(contents, reserve, reserved, index, limit)
    requires reserved + index < limit && color !in contents
    ensures Accounted(contents[color := index], reserve, reserved, index + 1, limit)
  {
    ReserveStaysAtTop(contents, reserve, reserved, limit, color, index);
    OneMoreFresh(contents, reserve, color, index);
    OthersStayBelow(contents, reserve, color, index);
    InjectiveWithNew(contents, color, index);
  }

  lemma ReserveStaysAtTop(contents: map<Color, nat>, reserve: map<Color, nat>, reserved: nat, limit: nat,
                          color: Color, index: nat)
    requires color !in contents && ReserveAtTop(contents, reserve, reserved, limit)
    ensures color !in reserve && ReserveAtTop(contents[color := index], reserve, reserved, limit)
  {
  }

  lemma OneMoreFresh(contents: map<Color, nat>, reserve: map<Color, nat>, color: Color, index: nat)
    requires color !in contents && color !in reserve
    ensures |contents[color := index].Keys - reserve.Keys| == |contents.Keys - reserve.Keys| + 1
  {
    assert contents[color := index].Keys - reserve.Keys == contents.Keys - reserve.Keys + {color};
  }

  lemma OthersStayBelow(contents: map<Color, nat>, reserve: map<Color, nat>, color: Color, index: nat)
    requires color !in contents && OthersBelow(contents, reserve, index)
    ensures OthersBelow(contents[color := index], reserve, index + 1)
  {
  }

  lemma InjectiveWithNew(m: map<Color, nat>, color: Color, index: nat)
    requires Injective(m) && forall c :: c in m ==> m[c] != index
    ensures Injective(m[color := index])
  {
    var m' := m[color := index];
    assert forall c, d :: c in m' && d in m' && m'[c] == m'[d] && c != color && d != color ==> m[c] == m[d];
  }

  lemma AccountReserve(palette: seq<Color>, limit: nat)
    requires |palette| <= limit
    ensures var r := ReserveMap(palette, |palette|, limit - |palette|);
      Accounted(r, r, |palette|, 0, limit)
  {
    var n, offset := |palette|, limit - |palette|;
    var r := ReserveMap(palette, n, offset);
    ReserveMapSize(palette, n, offset);
    ReserveMapValues(palette, n, offset);
    assert Counted(r, r, n, 0) by {
      assert r.Keys - r.Keys == {};
    }
    assert Injective(r);
  }

  /** The entries of the first n slots are at their places in the palette. */
  ghost predicate Placed(m: Table, n: nat, palette: seq<Color>) {
    forall s: Slot :: s < n && Full(m, s) ==> m[s].index < |palette| && palette[m[s].index] == m[s].color
  }

  /** No two slots of the table share a palette place. */
  lemma SlotsHaveOwnPlaces(m: Table, home: HashFunction, contents: map<Color, nat>, s: Slot, t: Slot)
    requires ProbingOk(m, home) && Represents(m, contents) && Injective(contents)
    requires Full(m, s) && Full(m, t) && s != t
    ensures m[s].index != m[t].index
  {
    assert contents[m[s].color] == m[s].index && contents[m[t].color] == m[t].index;
  }

  /** Writing one more slot's entry keeps the entries written before. */
  lemma PlaceSlot(m: Table, home: HashFunction, contents: map<Color, nat>, i: Slot, palette: seq<Color>)
    requires ProbingOk(m, home) && Represents(m, contents) && Injective(contents)
    requires Placed(m, i, palette) && forall c :: c in contents ==> contents[c] < |palette|
    ensures !Full(m, i) ==> Placed(m, i + 1, palette)
    ensures Full(m, i) ==> m[i].index < |palette| && m[i].index in contents.Values
                           && Placed(m, i + 1, palette[m[i].index := m[i].color])
  {
    if Full(m, i) {
      EntryOfSlot(m, contents, i);
      forall s: Slot | s < i && Full(m, s)
        ensures m[s].index != m[i].index
      {
        SlotsHaveOwnPlaces(m, home, contents, s, i);
      }
    }
  }

  lemma ColorIsPlaced(m: Table, contents: map<Color, nat>, palette: seq<Color>, c: Color)
    requires Represents(m, contents) && Placed(m, MAP_SIZE, palette) && c in contents
    ensures contents[c] < |palette| && palette[contents[c]] == c
  {
    var s := SlotOfColor(m, contents, c);
  }
}
