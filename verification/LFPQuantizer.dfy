/** The lossless pseudo-quantizer: an open-addressing hash table from colours to palette indices,
    filled while the image is scanned. */
module LFP {
  import opened CArith
  import opened ColorTable

  /** An 8-bit image: one palette index a pixel. */
  datatype Bitmap8 = Bitmap8(bits: array2<Byte>, palette: array<Color>)

  ghost predicate Extends(m: map<Color, nat>, m': map<Color, nat>) {
    forall c :: c in m ==> c in m' && m'[c] == m[c]
  }

  /** Pixel (i, j) comes before pixel (y, x) in scan order. */
  predicate Before(i: nat, j: nat, y: nat, x: nat) {
    i < y || (i == y && j < x)
  }

  /** Every pixel before (y, x) has its colour in the table and that colour's index in `bits`. */
  ghost predicate Mapped(img: Image, m: map<Color, nat>, bits: array2<Byte>, y: nat, x: nat)
    requires img.Valid() && bits.Length0 == img.height && bits.Length1 == img.width
    reads bits
  {
    forall i: nat, j: nat :: i < img.height && j < img.width && Before(i, j, y, x) ==>
      img.Color(i, j) in m && bits[i, j] == m[img.Color(i, j)]
  }

  /** The colours that the reserve palette provides. */
  ghost function Held(reservePalette: Option<seq<Color>>): set<Color> {
    if reservePalette.Some? then Inserted(reservePalette.value) else {}
  }

  /** The palette places charged for it: repeated entries count, a missing palette does not. */
  ghost function Charged(reservePalette: Option<seq<Color>>): nat {
    if reservePalette.Some? then |reservePalette.value| else 0
  }

  /** Every pixel's palette entry is the pixel's colour. */
  ghost predicate Lossless(img: Image, bits: array2<Byte>, palette: array<Color>, limit: nat)
    requires img.Valid()
    reads bits, palette
  {
    && bits.Length0 == img.height && bits.Length1 == img.width
    && forall y: nat, x: nat :: y < img.height && x < img.width ==>
         bits[y, x] < limit && bits[y, x] < palette.Length && palette[bits[y, x]] == img.Color(y, x)
  }

  class LFPQuantizer {
    const home: HashFunction      // hash(color) & (MAP_SIZE - 1)
    const table: array<MapEntry>  // m_map
    var size: nat                 // m_size
    const limit: nat              // m_limit
    var index: nat                // m_index

    ghost var contents: map<Color, nat>  // the pairs held by the table
    ghost var reserve: map<Color, nat>   // those that came from the reserve palette
    ghost var reserved: nat              // palette places the reserve palette was charged for

    ghost predicate TableHolds(pairs: map<Color, nat>)
      reads table
    {
      table.Length == MAP_SIZE && ProbingOk(table[..], home) && Represents(table[..], pairs)
    }

    ghost predicate Valid()
      reads this, table
    {
      && limit <= MAX_SIZE
      && TableHolds(contents)
      && size == reserved + index <= limit
      && Accounted(contents, reserve, reserved, index, limit)
    }

    constructor (paletteSize: nat)
      requires paletteSize <= MAX_SIZE
      ensures Valid() && fresh(table)
      ensures limit == paletteSize && contents == map[] && reserve == map[] && reserved == 0
    {
      home := Bucket;
      table := new MapEntry[MAP_SIZE](_ => EMPTY_ENTRY);
      size, limit, index := 0, paletteSize, 0;
      contents, reserve, reserved := map[], map[], 0;
    }

    /** Take the free bucket that the probe for a new colour ran into. */
    method TakeBucket(bucket: Slot, color: Color)
      requires Valid() && size < limit && color != EMPTY_BUCKET && color !in contents
      requires !Full(table[..], bucket) && Reachable(table[..], home(color), bucket)
      modifies this, table
      ensures Valid() && reserve == old(reserve) && reserved == old(reserved)
      ensures contents == old(contents)[color := old(index)] && table[bucket] == MapEntry(color, old(index))
    {
      hide ProbingOk, Represents, Accounted;
      InsertKeepsProbing(table[..], home, contents, color, bucket, index);
      AccountNewColor(contents, reserve, reserved, index, limit, color);
      table[bucket] := MapEntry(color, index);
      assert table[..] == old(table[..])[bucket := MapEntry(color, index)];
      contents := contents[color := index];
      index := index + 1;
      size := size + 1;
    }

    method GetIndexForColor(color: Color) returns (r: int)
      requires Valid() && color != EMPTY_BUCKET
      modifies this, table
      ensures Valid() && reserve == old(reserve) && reserved == old(reserved)
      ensures r == if color in old(contents) then old(contents)[color]
                   else if old(size) == limit then -1 else old(index)
      ensures contents == if color in old(contents) || old(size) == limit then old(contents)
                          else old(contents)[color := old(index)]
      ensures r == -1 ==> size == limit
    {
      hide ProbingOk, Represents, Accounted;
      AccountedSize(contents, reserve, reserved, index, limit);
      ghost var h, m := home(color), table[..];
      ghost var free := FreeSlotExists(m, home, contents);
      var bucket: Slot := home(color);
      while table[bucket].color != color
        invariant unchanged(this) && unchanged(table) && table[..] == m
        invariant Steps(h, bucket) + Steps(bucket, free) == Steps(h, free)
        invariant Passed(m, h, bucket, color)
        decreases Steps(bucket, free)
      {
        if table[bucket].color == EMPTY_BUCKET {
          assert !Full(m, bucket);
          AbsentAtFreeSlot(m, home, contents, color, bucket);
          assert Reachable(m, h, bucket);
          if size == limit {
            return -1;
          }
          TakeBucket(bucket, color);
          break;
        }
        OneStep(h, bucket, free);
        bucket := NextSlot(bucket);
      }
      r := table[bucket].index;
      EntryOfSlot(table[..], contents, bucket);
    }

    /** One turn of the reserve loop: an entry is stored unless its dword is already in the table
        or is the marker of an empty bucket. */
    method AddReserveEntry(color: Color, place: nat, ghost pairs: map<Color, nat>)
      requires TableHolds(pairs) && |pairs| < MAP_SIZE
      modifies table
      ensures TableHolds(if color == EMPTY_BUCKET || color in pairs then pairs else pairs[color := place])
    {
      ghost var h, m := home(color), table[..];
      ghost var free := FreeSlotExists(m, home, pairs);
      var bucket: Slot := home(color);
      while table[bucket].color != EMPTY_BUCKET && table[bucket].color != color
        invariant unchanged(table)
        invariant Steps(h, bucket) + Steps(bucket, free) == Steps(h, free)
        invariant Passed(m, h, bucket, color)
        decreases Steps(bucket, free)
      {
        OneStep(h, bucket, free);
        bucket := NextSlot(bucket);
      }
      if table[bucket].color != color {
        assert !Full(m, bucket);
        AbsentAtFreeSlot(m, home, pairs, color, bucket);
        assert Reachable(m, h, bucket);
        InsertKeepsProbing(m, home, pairs, color, bucket, place);
        table[bucket] := MapEntry(color, place);
        assert table[..] == m[bucket := MapEntry(color, place)];
      } else {
        assert m[bucket].color == color;
        assert color != EMPTY_BUCKET ==> Full(m, bucket);
      }
    }

    ghost method NoteReserve(palette: seq<Color>)
      requires |palette| <= limit <= MAX_SIZE && size == |palette| && index == 0
      requires TableHolds(ReserveMap(palette, |palette|, limit - |palette|))
      modifies this`contents, this`reserve, this`reserved
      ensures Valid() && reserved == |palette|
      ensures contents == reserve == ReserveMap(palette, |palette|, limit - |palette|)
      ensures reserve.Keys == Inserted(palette)
    {
      hide ReserveMap, TableHolds, Accounted, Inserted;
      AccountReserve(palette, limit);
      InsertedKeys(palette, limit - |palette|);
      contents := ReserveMap(palette, |palette|, limit - |palette|);
      reserve, reserved := contents, |palette|;
    }

    /** The reserve palette takes the top of the index range; `size` is charged for every entry,
        repeated or not. */
    method AddReservePalette(palette: seq<Color>)
      requires Valid() && contents == map[] && size == 0 && |palette| <= limit
      modifies this, table
      ensures Valid() && reserved == |palette| && index == 0
      ensures contents == reserve == ReserveMap(palette, |palette|, limit - |palette|)
      ensures reserve.Keys == Inserted(palette)
    {
      hide ProbingOk, Represents, Accounted;
      assert TableHolds(map[]);
      var count := if |palette| > MAX_SIZE then MAX_SIZE else |palette|;
      var offset := limit - count;
      for i := 0 to count
        invariant unchanged(this)
        invariant TableHolds(ReserveMap(palette, i, offset))
      {
        ReserveMapSize(palette, i, offset);
        AddReserveEntry(palette[i], i + offset, ReserveMap(palette, i, offset));
      }
      size := size + count;
      NoteReserve(palette);
    }

    /** Copies every entry of the table to its place; the other places keep their colours. */
    method WritePalette(palette: array<Color>)
      requires Valid() && palette.Length >= MAX_SIZE
      modifies palette
      ensures forall c :: c in contents ==> contents[c] < MAX_SIZE && palette[contents[c]] == c
      ensures forall k :: 0 <= k < palette.Length && k !in contents.Values ==> palette[k] == old(palette[k])
    {
      hide Valid, Placed;
      StartPlacing(palette[..]);
      for i := 0 to MAP_SIZE
        invariant Placed(table[..], i, palette[..])
        invariant forall k :: 0 <= k < palette.Length && k !in contents.Values ==> palette[k] == old(palette[k])
      {
        CopySlot(i, palette);
      }
      EveryColorPlaced(palette[..]);
    }

    lemma StartPlacing(palette: seq<Color>)
      requires Valid()
      ensures table.Length == MAP_SIZE && Placed(table[..], 0, palette)
    {
    }

    /** One turn of the loop. */
    method CopySlot(i: Slot, palette: array<Color>)
      requires Valid() && palette.Length >= MAX_SIZE && Placed(table[..], i, palette[..])
      modifies palette
      ensures Placed(table[..], i + 1, palette[..])
      ensures forall k :: 0 <= k < palette.Length && k !in contents.Values ==> palette[k] == old(palette[k])
    {
      hide ProbingOk, Represents, Placed;
      AccountedSize(contents, reserve, reserved, index, limit);
      ghost var before := palette[..];
      PlaceSlot(table[..], home, contents, i, before);
      if table[i].color != EMPTY_BUCKET {
        palette[table[i].index] := table[i].color;
        assert palette[..] == before[table[i].index := table[i].color];
      }
    }

    lemma EveryColorPlaced(palette: seq<Color>)
      requires Valid() && Placed(table[..], MAP_SIZE, palette)
      ensures forall c :: c in contents ==> contents[c] < MAX_SIZE && contents[c] < |palette| && palette[contents[c]] == c
    {
      hide ProbingOk, Represents, Placed;
      AccountedSize(contents, reserve, reserved, index, limit);
      forall c | c in contents
        ensures contents[c] < MAX_SIZE && contents[c] < |palette| && palette[contents[c]] == c
      {
        ColorIsPlaced(table[..], contents, palette, c);
      }
    }

    /** The load factor never exceeds one half. */
    lemma AtMostHalfFull()
      requires Valid()
      ensures |FullBelow(table[..], MAP_SIZE)| <= MAX_SIZE
    {
      hide ProbingOk, Represents, Accounted;
      AccountedSize(contents, reserve, reserved, index, limit);
      FullSlotsAreColors(table[..], home, contents, MAP_SIZE);
      SubsetSize(ColorsBelow(table[..], MAP_SIZE), contents.Keys);
    }

    lemma PlacesInRange()
      requires Valid()
      ensures size <= limit <= MAX_SIZE && forall c :: c in contents ==> contents[c] < limit
    {
      AccountedSize(contents, reserve, reserved, index, limit);
    }

    /** The body shared by the pixel loops: one lookup, skipped when the colour repeats. */
    method MapPixel(color: Color, lastColor: Color, lastIndex: int) returns (ok: bool, c: Color, k: int)
      requires Valid() && color != EMPTY_BUCKET
      requires lastColor != EMPTY_BUCKET ==> lastColor in contents && contents[lastColor] == lastIndex
      modifies this, table
      ensures Valid() && reserve == old(reserve) && reserved == old(reserved)
      ensures ok ==> c == color && color in contents && contents[color] == k < limit
      ensures ok ==> Extends(old(contents), contents) && contents.Keys == old(contents).Keys + {color}
      ensures !ok ==> contents == old(contents) && color !in contents && size == limit
    {
      hide Valid;
      ok, c, k := true, lastColor, lastIndex;
      if color != lastColor {
        c := color;
        k := GetIndexForColor(color);
        ok := k != -1;
      }
      PlacesInRange();
    }

    /** An inner pixel loop: the first x1 pixels of row y, read as masked dwords. */
    method MapSpan(img: Image, bits: array2<Byte>, y: nat, x1: nat, lastColor: Color, lastIndex: int)
      returns (ok: bool, c: Color, k: int)
      requires Valid() && img.Valid() && bits.Length0 == img.height && bits.Length1 == img.width
      requires y < img.height && x1 <= img.width
      requires lastColor != EMPTY_BUCKET ==> lastColor in contents && contents[lastColor] == lastIndex
      requires Mapped(img, contents, bits, y, 0) && contents.Keys <= reserve.Keys + img.Colors()
      modifies this, table, bits
      ensures Valid() && reserve == old(reserve) && reserved == old(reserved)
      ensures contents.Keys <= reserve.Keys + img.Colors()
      ensures ok ==> Mapped(img, contents, bits, y, x1)
      ensures ok ==> c != EMPTY_BUCKET ==> c in contents && contents[c] == k
      ensures !ok ==> size == limit && exists color :: color in img.Colors() && color !in contents
    {
      hide Valid, Image.Colors, MaskRgb, RawDword, Rgb;
      ok, c, k := true, lastColor, lastIndex;
      for x := 0 to x1
        invariant ok && Valid() && reserve == old(reserve) && reserved == old(reserved)
        invariant contents.Keys <= reserve.Keys + img.Colors()
        invariant c != EMPTY_BUCKET ==> c in contents && contents[c] == k
        invariant Mapped(img, contents, bits, y, x)
      {
        var color := MaskRgb(RawDword(img.rows[y][x]));
        MaskDropsFourthByte(img.rows[y][x]);
        img.ColorIsListed(y, x);
        ok, c, k := MapPixel(color, c, k);
        if !ok {
          return;
        }
        PlacesInRange();
        bits[y, x] := k;
      }
    }

    lemma TooManyColors(img: Image)
      requires Valid() && img.Valid() && size == limit
      requires contents.Keys <= reserve.Keys + img.Colors()
      requires exists c :: c in img.Colors() && c !in contents
      ensures |img.Colors() - reserve.Keys| > limit - reserved
    {
      var c :| c in img.Colors() && c !in contents;
      var taken := contents.Keys - reserve.Keys;
      assert c !in reserve.Keys && |taken + {c}| == |taken| + 1;
      SubsetSize(taken + {c}, img.Colors() - reserve.Keys);
    }

    lemma EnoughPlaces(img: Image)
      requires Valid() && img.Valid()
      requires img.Colors() <= contents.Keys <= reserve.Keys + img.Colors()
      ensures |img.Colors() - reserve.Keys| <= limit - reserved
    {
      assert img.Colors() - reserve.Keys == contents.Keys - reserve.Keys;
    }

    lemma AllMapped(img: Image, bits: array2<Byte>)
      requires img.Valid() && bits.Length0 == img.height && bits.Length1 == img.width
      requires Mapped(img, contents, bits, img.height, 0)
      ensures img.Colors() <= contents.Keys
      ensures forall y: nat, x: nat :: y < img.height && x < img.width ==>
                img.Color(y, x) in contents && bits[y, x] == contents[img.Color(y, x)]
    {
      assert forall y: nat, x: nat :: y < img.height ==> Before(y, x, img.height, 0);
    }

    /** The pixel loops: three for a 24-bit image, one for a 32-bit image. */
    method MapImage(img: Image, dst: array2<Byte>) returns (ok: bool)
      requires Valid() && img.Valid() && dst.Length0 == img.height && dst.Length1 == img.width
      requires contents.Keys <= reserve.Keys + img.Colors()
      modifies this, table, dst
      ensures Valid() && reserve == old(reserve) && reserved == old(reserved)
      ensures contents.Keys <= reserve.Keys + img.Colors()
      ensures ok ==> Mapped(img, contents, dst, img.height, 0)
      ensures !ok ==> size == limit && exists c :: c in img.Colors() && c !in contents
    {
      hide Valid, Image.Colors, Rgb;
      var color, index8;
      ok, color, index8 := true, EMPTY_BUCKET, 0;
      if img.bpp == 24 {
        // all but the last scanline
        for y := 0 to img.height - 1
          invariant Valid() && reserve == old(reserve) && reserved == old(reserved)
          invariant contents.Keys <= reserve.Keys + img.Colors()
          invariant color != EMPTY_BUCKET ==> color in contents && contents[color] == index8
          invariant ok && Mapped(img, contents, dst, y, 0)
        {
          ok, color, index8 := MapSpan(img, dst, y, img.width, color, index8);
          if !ok {
            return;
          }
        }
        // all but the last pixel of the last scanline
        ok, color, index8 := MapSpan(img, dst, img.height - 1, img.width - 1, color, index8);
        if !ok {
          return;
        }
        // the last pixel, assembled from its three bytes
        img.ColorIsListed(img.height - 1, img.width - 1);
        ok, color, index8 := MapPixel(Rgb(img.rows[img.height - 1][img.width - 1]), color, index8);
        if !ok {
          return;
        }
        PlacesInRange();
        dst[img.height - 1, img.width - 1] := index8;
      } else {
        for y := 0 to img.height
          invariant Valid() && reserve == old(reserve) && reserved == old(reserved)
          invariant contents.Keys <= reserve.Keys + img.Colors()
          invariant color != EMPTY_BUCKET ==> color in contents && contents[color] == index8
          invariant ok && Mapped(img, contents, dst, y, 0)
        {
          ok, color, index8 := MapSpan(img, dst, y, img.width, color, index8);
          if !ok {
            return;
          }
        }
      }
    }

    lemma NoReserve()
      requires Valid() && contents == map[] && size == 0
      ensures reserve == map[] && reserved == 0
    {
      hide TableHolds, OthersBelow, Injective;
    }

    /** The reserve palette is added if it has entries. */
    method TakeReserve(reserveSize: nat, reservePalette: Option<seq<Color>>)
      requires Valid() && contents == map[] && size == 0
      requires reserveSize <= limit && (reservePalette.Some? ==> |reservePalette.value| == reserveSize)
      modifies this, table
      ensures Valid() && contents == reserve
      ensures reserve.Keys == Held(reservePalette) && reserved == Charged(reservePalette)
      ensures reservePalette.Some? ==> reserve == ReserveMap(reservePalette.value, reserveSize, limit - reserveSize)
    {
      hide Valid, Inserted, ReserveMap;
      NoReserve();
      if reserveSize > 0 && reservePalette.Some? {
        AddReservePalette(reservePalette.value);
      } else {
        NothingInserted(reservePalette, limit);
      }
    }

    lemma NothingInserted(reservePalette: Option<seq<Color>>, offset: nat)
      ensures reservePalette == Some([]) ==>
                Inserted(reservePalette.value) == {} && ReserveMap(reservePalette.value, 0, offset) == map[]
    {
    }

    lemma MappedIsLossless(img: Image, bits: array2<Byte>, palette: array<Color>)
      requires img.Valid() && bits.Length0 == img.height && bits.Length1 == img.width
      requires forall y: nat, x: nat :: y < img.height && x < img.width ==>
                 img.Color(y, x) in contents && bits[y, x] == contents[img.Color(y, x)]
      requires palette.Length >= MAX_SIZE
      requires forall c :: c in contents ==> contents[c] < limit <= MAX_SIZE && palette[contents[c]] == c
      ensures Lossless(img, bits, palette, limit)
    {
    }

    lemma ReserveKept()
      requires Valid()
      ensures forall c :: c in reserve ==> c in contents && contents[c] == reserve[c]
    {
      hide TableHolds, Counted, OthersBelow, Injective;
    }

    /** Quantizes a 24-bit or 32-bit image.  `fresh8` is the palette of the newly allocated image.
        The result is exact, and there is none exactly when the colours that the reserve palette
        does not hold outnumber the places it leaves. */
    method Quantize(img: Image, reserveSize: nat, reservePalette: Option<seq<Color>>, fresh8: array<Color>)
      returns (r: Option<Bitmap8>)
      requires Valid() && contents == map[] && size == 0 && img.Valid() && fresh8.Length >= MAX_SIZE
      requires reserveSize <= limit && (reservePalette.Some? ==> |reservePalette.value| == reserveSize)
      modifies this, table, fresh8
      ensures r.Some? <==> |img.Colors() - Held(reservePalette)| <= limit - Charged(reservePalette)
      ensures r.Some? ==> r.value.palette == fresh8 && fresh(r.value.bits)
      ensures r.Some? ==> Lossless(img, r.value.bits, fresh8, limit)
      ensures r.Some? && reservePalette.Some? ==> ReserveStands(reservePalette.value, fresh8[..], limit)
    {
      hide *;
      TakeReserve(reserveSize, reservePalette);
      var dst := new Byte[img.height, img.width]((_, _) => 0);
      var ok := MapImage(img, dst);
      if !ok {
        TooManyColors(img);
        return None;
      }
      AllMapped(img, dst);
      EnoughPlaces(img);
      PlacesInRange();
      WritePalette(fresh8);
      MappedIsLossless(img, dst, fresh8);
      if reservePalette.Some? {
        ReserveKept();
        StandsWherePlaced(reservePalette.value, reserve, contents, fresh8[..], limit);
      }
      return Some(Bitmap8(dst, fresh8));
    }
  }
}
