/** The metadata that the parser takes from pHYs, bKGD and tEXt chunks, and when the code for it reads
    outside its buffers. */
module JngMeta {
  import opened CArith
  import opened Chunks

  /** What is put on the loaded image: resolution, background colour, and texts by keyword. */
  datatype Meta = Meta(resX: Dword, resY: Dword, background: Option<(Byte, Byte, Byte)>,
                       texts: map<seq<Byte>, seq<Byte>>)

  const NO_META := Meta(2835, 2835, None, map[])

  /** What the chunk buffer holds once a chunk was read.  It is reallocated to the length of the data,
      and left alone if there is none; while it is empty it is a null pointer. */
  function Held(buffer: seq<Byte>, data: seq<Byte>): seq<Byte> {
    if data == [] then buffer else data
  }

  /** The code reads outside its buffers at this chunk: it takes eight bytes of the chunk buffer for
      pHYs and six for bKGD whatever their lengths, and looks for the end of a tEXt value behind it. */
  predicate Misreads(buffer: seq<Byte>, c: Chunk) {
    || (c.name == PHYS && |Held(buffer, c.data)| < 8)
    || (c.name == BKGD && |Held(buffer, c.data)| < 6)
    || (c.name == TEXT && 0 !in c.data)
  }

  // ---------- mng_SetMetadata_tEXt ----------

  /** A C string. */
  function UpToZero(s: seq<Byte>): (r: seq<Byte>)
    ensures r <= s && 0 !in r && (|r| < |s| ==> s[|r|] == 0)
  {
    if s == [] || s[0] == 0 then [] else [s[0]] + UpToZero(s[1..])
  }

  function SkipZeros(s: seq<Byte>): (r: seq<Byte>)
    ensures r == [] || r[0] != 0
  {
    if s != [] && s[0] == 0 then SkipZeros(s[1..]) else s
  }

  /** Keyword and value: two strings with a zero byte between them, where zero bytes before the keyword
      are skipped; or no keyword, if no zero byte follows it. */
  function TextPair(data: seq<Byte>): (seq<Byte>, seq<Byte>) {
    var d := SkipZeros(data);
    var key := UpToZero(d);
    if key == d then ([], d) else (key, UpToZero(d[|key| + 1..]))
  }

  lemma {:induction false} UpToZeroIs(s: seq<Byte>, n: nat)
    requires n <= |s| && 0 !in s[..n] && (n < |s| ==> s[n] == 0)
    ensures UpToZero(s) == s[..n]
    decreases n
  {
    if n > 0 {
      assert s[1..][..n - 1] == s[..n][1..];
      UpToZeroIs(s[1..], n - 1);
      assert s[..n] == [s[0]] + s[1..][..n - 1];
    }
  }

  lemma SkipsNothing(s: seq<Byte>)
    requires s == [] || s[0] != 0
    ensures SkipZeros(s) == s
  {
  }

  /** A pair comes back exactly if neither part holds a zero byte, as section 4.2.3 of RFC 2083 asks. */
  lemma TextComesBack(key: seq<Byte>, value: seq<Byte>)
    ensures TextPair(key + [0] + value) == (key, value) <==> 0 !in key && 0 !in value
  {
    hide UpToZero, SkipZeros;
    var data := key + [0] + value;
    if 0 !in key && 0 !in value {
      assert value[..|value|] == value;
      UpToZeroIs(value, |value|);
      if key == [] {
        assert data == [0] + value;
        LeadingZero(value);
        SkipsNothing(value);
      } else {
        SkipsNothing(data);
        assert data[..|key|] == key && data[|key| + 1..] == value && key != data;
        UpToZeroIs(data, |key|);
      }
    }
  }

  lemma LeadingZero(s: seq<Byte>)
    ensures SkipZeros([0] + s) == SkipZeros(s) && TextPair([0] + s) == TextPair(s)
  {
    assert ([0] + s)[1..] == s;
  }

  lemma TextEnds(key: seq<Byte>, value: seq<Byte>, rest: seq<Byte>)
    requires 0 !in key && 0 !in value
    ensures key != [] ==> TextPair(key + [0] + value + [0] + rest) == (key, value)
    ensures TextPair(value) == ([], value)
  {
    hide UpToZero, SkipZeros;
    SkipsNothing(value);
    assert value[..|value|] == value;
    UpToZeroIs(value, |value|);
    if key != [] {
      var data, tail := key + [0] + value + [0] + rest, value + [0] + rest;
      SkipsNothing(data);
      assert data[..|key|] == key && key != data && data[|key| + 1..] == tail;
      UpToZeroIs(data, |key|);
      assert tail[..|value|] == value;
      UpToZeroIs(tail, |value|);
    }
  }

  /** Zero bytes before a keyword and all behind the zero byte that ends its value are ignored; what has no
      zero byte but leading ones is a value without a keyword. */
  lemma {:induction false} TextIgnores(zeros: seq<Byte>, key: seq<Byte>, value: seq<Byte>, rest: seq<Byte>)
    requires (forall i :: 0 <= i < |zeros| ==> zeros[i] == 0) && 0 !in key && 0 !in value
    ensures key != [] ==> TextPair(zeros + (key + [0] + value + [0] + rest)) == (key, value)
    ensures TextPair(zeros + value) == ([], value)
    decreases |zeros|
  {
    hide TextPair;
    var data := key + [0] + value + [0] + rest;
    if zeros == [] {
      assert zeros + data == data && zeros + value == value;
      TextEnds(key, value, rest);
    } else {
      assert zeros + data == [0] + (zeros[1..] + data) && zeros + value == [0] + (zeros[1..] + value);
      LeadingZero(zeros[1..] + data);
      LeadingZero(zeros[1..] + value);
      TextIgnores(zeros[1..], key, value, rest);
    }
  }

  /** The bytes of a buffer up to its first zero byte. */
  method CString(buffer: array<Byte>) returns (s: seq<Byte>)
    requires 0 in buffer[..]
    ensures s == UpToZero(buffer[..])
  {
    hide UpToZero;
    ghost var z :| 0 <= z < buffer.Length && buffer[z] == 0;
    var n := 0;
    while buffer[n] != 0
      invariant n <= z && 0 !in buffer[..n]
      decreases z - n
    {
      n := n + 1;
    }
    UpToZeroIs(buffer[..], n);
    s := buffer[..n];
  }

  method Clear(buffer: array<Byte>)
    modifies buffer
    ensures forall i :: 0 <= i < buffer.Length ==> buffer[i] == 0
  {
    forall i | 0 <= i < buffer.Length {
      buffer[i] := 0;
    }
  }

  /** What is found if the keyword, the bytes since and the data left are these. */
  function Pending(key: seq<Byte>, run: seq<Byte>, rest: seq<Byte>): (seq<Byte>, seq<Byte>) {
    if key != [] then (key, UpToZero(run + rest)) else TextPair(run + rest)
  }

  /** One more byte that is not zero; a zero byte; the end. */
  lemma PendingStep(key: seq<Byte>, run: seq<Byte>, rest: seq<Byte>)
    requires 0 !in run
    ensures rest == [] ==> Pending(key, run, rest) == (key, run)
    ensures rest != [] ==> Pending(key, run, rest) == Pending(key, run + [rest[0]], rest[1..])
    ensures rest != [] && rest[0] == 0 ==>
              Pending(key, run, rest) == if key == [] then Pending(run, [], rest[1..]) else (key, run)
  {
    hide UpToZero, SkipZeros;
    if rest == [] {
      assert run + rest == run;
      SkipsNothing(run);
      UpToZeroIs(run, |run|);
    } else {
      assert run + rest == run + [rest[0]] + rest[1..];
      if rest[0] == 0 {
        var s := run + rest;
        assert s[..|run|] == run && s[|run| + 1..] == rest[1..] == [] + rest[1..];
        UpToZeroIs(s, |run|);
        if run == [] {
          assert s == [0] + rest[1..];
          LeadingZero(rest[1..]);
        } else {
          SkipsNothing(s);
        }
      }
    }
  }

  /** mng_SetMetadata_tEXt: one pass that collects a string at a time in a buffer of the data's length. */
  method ReadText(data: seq<Byte>) returns (key: seq<Byte>, value: seq<Byte>)
    requires 0 in data
    ensures (key, value) == TextPair(data)
  {
    hide UpToZero, SkipZeros, TextPair, Pending;
    assert Pending([], [], data) == TextPair(data) by { StartPending(data); }
    key := [];
    var buffer := new Byte[|data|];
    Clear(buffer);
    var pos, i := 0, 0;
    while i < |data|
      invariant 0 <= pos <= i <= |data| == buffer.Length && 0 !in buffer[..pos]
      invariant forall k :: pos <= k < buffer.Length ==> buffer[k] == 0
      invariant pos == i ==> 0 !in data[..i]
      invariant Pending(key, buffer[..pos], data[i..]) == TextPair(data)
    {
      ghost var run := buffer[..pos];
      PendingStep(key, run, data[i..]);
      buffer[pos] := data[i];
      pos := pos + 1;
      assert buffer[..pos] == run + [data[i]] && data[i..][1..] == data[i + 1..];
      assert data[..i + 1] == data[..i] + [data[i]];
      if data[i] == 0 {
        UpToZeroIs(buffer[..], pos - 1);
        assert buffer[..][..pos - 1] == run && buffer[..][pos - 1] == 0;
        if key == [] {
          key := CString(buffer);
          pos := 0;
          Clear(buffer);
        } else {
          value := CString(buffer);
          return;
        }
      }
      i := i + 1;
    }
    PendingStep(key, buffer[..pos], []);
    assert data[i..] == [] && data[..i] == data && buffer[pos] == 0 && buffer[pos] in buffer[..];
    UpToZeroIs(buffer[..], pos);
    assert buffer[..][..pos] == buffer[..pos];
    value := CString(buffer);
  }

  lemma StartPending(data: seq<Byte>)
    ensures Pending([], [], data) == TextPair(data)
  {
    assert [] + data == data;
  }

  // ---------- what one chunk changes ----------

  /** What a chunk does to the metadata; the buffer is what was held before the chunk. */
  function MetaAfter(meta: Meta, buffer: seq<Byte>, c: Chunk): Meta
    requires !Misreads(buffer, c)
  {
    var b := Held(buffer, c.data);
    if c.name == PHYS then meta.(resX := FromBE32(b[..4]), resY := FromBE32(b[4..8]))
    else if c.name == BKGD then meta.(background := Some((b[1], b[3], b[5])))
    else if c.name == TEXT then var (key, value) := TextPair(c.data); meta.(texts := meta.texts[key := value])
    else meta
  }
}
