/**
 * The render parameter buffer: a table from parameter name to (offset, type)
 * over a buffer of 32-bit words whose length is always padded to a multiple
 * of 16 words. Parameters are only ever appended, so the table is a small
 * append-only layout allocator.
 */
module RenderParams {
  import opened Wrappers

  newtype Int32 = x: int | -0x8000_0000 <= x < 0x8000_0000

  /** The parameter types, in declaration order. */
  datatype Type = Int | UInt | Float | Float2 | Float3 | Float4 | Matrix

  /** Where a parameter lives: `offset` counts 32-bit words from the start of the buffer. */
  datatype Metadata = Metadata(offset: nat, kind: Type)

  /** A value-initialised `Metadata`, returned for unknown names. */
  const DefaultMetadata: Metadata := Metadata(0, Int)

  /** Rounds a word count up to a multiple of 16; zero stays zero. */
  function SizeWithPadding(size: nat): (r: nat)
    ensures r % 16 == 0
    ensures size <= r < size + 16
    ensures size == 0 ==> r == 0
  {
    if size == 0 then 0 else ((size - 1) / 16 + 1) * 16
  }

  /** No smaller multiple of 16 covers `size`. */
  lemma SizeWithPaddingIsLeast(size: nat, m: nat)
    requires m % 16 == 0 && size <= m
    ensures SizeWithPadding(size) <= m
  {
  }

  /** Padding never shrinks as the parameter area grows. */
  lemma SizeWithPaddingMonotonic(a: nat, b: nat)
    requires a <= b
    ensures SizeWithPadding(a) <= SizeWithPadding(b)
  {
    if a > 0 {
      SizeWithPaddingIsLeast(a, SizeWithPadding(b));
    }
  }

  /**
   * Number of 32-bit words of a parameter type, with `UInt` counted as one
   * word like `Int` (see NumberOfElementsAsWritten for the switch as written).
   */
  function NumberOfElements(t: Type): (n: nat)
    ensures 1 <= n <= 16
    ensures n == 1 <==> t in {Int, UInt, Float}
    ensures t == Matrix <==> n == 16
  {
    match t
    case Int | UInt | Float => 1
    case Float2 => 2
    case Float3 => 3
    case Float4 => 4
    case Matrix => 16
  }

  /**
   * The switch as written: it has no `UInt` case, so a release build falls
   * through the failed assertion and returns 0.
   */
  function NumberOfElementsAsWritten(t: Type): (n: nat)
    ensures n == 0 <==> t == UInt
    ensures t != UInt ==> n == NumberOfElements(t)
  {
    match t
    case Int | Float => 1
    case Float2 => 2
    case Float3 => 3
    case Float4 => 4
    case Matrix => 16
    case UInt => 0
  }

  /** Size of a parameter type in bytes: four bytes per word. */
  function TypeSizeInBytes(t: Type): (r: nat)
    ensures r % 4 == 0 && 4 <= r <= 64
    ensures r / 4 == NumberOfElements(t)
  {
    NumberOfElements(t) * 4
  }

  /** Total number of words taken by the first `k` parameters, laid end to end. */
  function SlotsBefore(types: seq<Type>, k: nat): nat
    requires k <= |types|
  {
    if k == 0 then 0 else SlotsBefore(types, k - 1) + NumberOfElements(types[k - 1])
  }

  /** The same total under the switch as written. */
  function SlotsBeforeAsWritten(types: seq<Type>, k: nat): nat
    requires k <= |types|
  {
    if k == 0 then 0 else SlotsBeforeAsWritten(types, k - 1) + NumberOfElementsAsWritten(types[k - 1])
  }

  /** A parameter added after another starts at or after the end of the earlier one's slots. */
  lemma {:induction false} SlotsBeforeGrow(types: seq<Type>, a: nat, b: nat)
    requires a < b <= |types|
    ensures SlotsBefore(types, a) + NumberOfElements(types[a]) <= SlotsBefore(types, b)
  {
    if b > a + 1 {
      SlotsBeforeGrow(types, a, b - 1);
    }
  }

  /** Appending a parameter leaves the offsets of the earlier ones unchanged. */
  lemma {:induction false} SlotsBeforeAppend(types: seq<Type>, t: Type, k: nat)
    requires k <= |types|
    ensures SlotsBefore(types + [t], k) == SlotsBefore(types, k)
  {
    if k > 0 {
      SlotsBeforeAppend(types, t, k - 1);
    }
  }

  lemma PaddedBytes(words: nat)
    requires words % 16 == 0
    ensures (words * 4) % 64 == 0
  {
    var q := words / 16;
    assert words * 4 == q * 64;
  }

  function Zeros(n: nat): (z: seq<Int32>)
    ensures |z| == n && forall p :: 0 <= p < n ==> z[p] == 0
  {
    seq(n, _ => 0)
  }

  /**
   * Names are distinct and are exactly the keys of `metadata`; each
   * parameter's offset is the total size of the parameters added before it,
   * and `last` is the total size of all of them.
   */
  ghost predicate LayoutOf(metadata: map<string, Metadata>, names: seq<string>, types: seq<Type>, last: nat)
  {
    && |types| == |names|
    && (forall a, b :: 0 <= a < b < |names| ==> names[a] != names[b])
    && (forall n :: n in metadata <==> n in names)
    && (forall k {:trigger metadata[names[k]]} :: 0 <= k < |names| ==>
          names[k] in metadata && metadata[names[k]] == Metadata(SlotsBefore(types, k), types[k]))
    && last == SlotsBefore(types, |types|)
  }

  /** The buffer is the padded size of the used area, and the padding words are zero. */
  ghost predicate PaddedOf(buffer: seq<Int32>, last: nat)
  {
    && |buffer| == SizeWithPadding(last)
    && (forall p :: last <= p < |buffer| ==> buffer[p] == 0)
  }

  /** Appending a new name at the end of the used area keeps the layout. */
  lemma AppendKeepsLayout(metadata: map<string, Metadata>, names: seq<string>, types: seq<Type>, last: nat,
                          name: string, t: Type)
    requires LayoutOf(metadata, names, types, last)
    requires name !in metadata
    ensures LayoutOf(metadata[name := Metadata(last, t)], names + [name], types + [t], last + NumberOfElements(t))
  {
    var md, ns, ts := metadata[name := Metadata(last, t)], names + [name], types + [t];
    AppendKeepsKeys(metadata, names, name, Metadata(last, t));
    AppendKeepsOffsets(metadata, names, types, last, name, t);
    SlotsBeforeAppend(types, t, |types|);
    assert forall a, b :: 0 <= a < b < |ns| ==> ns[a] != ns[b];
  }

  lemma AppendKeepsKeys(metadata: map<string, Metadata>, names: seq<string>, name: string, m: Metadata)
    requires forall n :: n in metadata <==> n in names
    ensures forall n :: n in metadata[name := m] <==> n in names + [name]
  {
  }

  lemma AppendKeepsOffsets(metadata: map<string, Metadata>, names: seq<string>, types: seq<Type>, last: nat,
                           name: string, t: Type)
    requires LayoutOf(metadata, names, types, last)
    requires name !in metadata
    ensures var md, ns, ts := metadata[name := Metadata(last, t)], names + [name], types + [t];
            forall k {:trigger md[ns[k]]} :: 0 <= k < |ns| ==> ns[k] in md && md[ns[k]] == Metadata(SlotsBefore(ts, k), ts[k])
  {
    var md, ns, ts := metadata[name := Metadata(last, t)], names + [name], types + [t];
    forall k | 0 <= k < |ns|
      ensures ns[k] in md && md[ns[k]] == Metadata(SlotsBefore(ts, k), ts[k])
    {
      SlotsBeforeAppend(types, t, k);
      if k < |names| {
        assert ns[k] == names[k] && names[k] != name;
        assert metadata[names[k]] == Metadata(SlotsBefore(types, k), types[k]);
      }
    }
  }

  /** Copies `words` into `buf` starting at `offset`, one word at a time. */
  method WriteWords(buf: seq<Int32>, offset: nat, words: seq<Int32>) returns (r: seq<Int32>)
    requires offset + |words| <= |buf|
    ensures r == buf[..offset] + words + buf[offset + |words|..]
  {
    r := buf;
    var i := 0;
    while i < |words|
      invariant 0 <= i <= |words|
      invariant |r| == |buf|
      invariant forall p :: 0 <= p < |r| && !(offset <= p < offset + i) ==> r[p] == buf[p]
      invariant forall p :: offset <= p < offset + i ==> r[p] == words[p - offset]
    {
      r := r[offset + i := words[i]];
      i := i + 1;
    }
    assert r == buf[..offset] + words + buf[offset + |words|..];
  }

  /**
   * The buffer step of `add`: the padded buffer grows (zero-filled) to the
   * padded size of the enlarged area and the new words are written at its
   * old end.
   */
  method AppendWords(buf: seq<Int32>, last: nat, words: seq<Int32>) returns (r: seq<Int32>)
    requires PaddedOf(buf, last)
    ensures PaddedOf(r, last + |words|)
    ensures r[..last] == buf[..last]
    ensures r[last..last + |words|] == words
  {
    var newSize := SizeWithPadding(last + |words|);
    SizeWithPaddingMonotonic(last, last + |words|);
    var grown := buf + Zeros(newSize - |buf|);
    r := WriteWords(grown, last, words);
    assert r[..last] == grown[..last] == buf[..last];
  }

  class RenderParameters {
    var lastParameterOffset: nat
    var metadata: map<string, Metadata>
    var names: seq<string>
    var buffer: seq<Int32>
    /** The type of each name in insertion order (the values of `metadata`, ordered by `names`). */
    ghost var types: seq<Type>

    /** See LayoutOf and PaddedOf. */
    ghost predicate Valid()
      reads this
    {
      Layout() && Padded()
    }

    ghost predicate Layout()
      reads this`metadata, this`names, this`types, this`lastParameterOffset
    {
      LayoutOf(metadata, names, types, lastParameterOffset)
    }

    ghost predicate Padded()
      reads this`buffer, this`lastParameterOffset
    {
      PaddedOf(buffer, lastParameterOffset)
    }

    constructor ()
      ensures Valid()
      ensures lastParameterOffset == 0 && metadata == map[] && names == [] && buffer == []
    {
      lastParameterOffset := 0;
      metadata := map[];
      names := [];
      buffer := [];
      types := [];
    }

    /** `has(name)`: the name was added. */
    function Has(name: string): (r: bool)
      reads this
      requires Valid()
      ensures r <==> name in names
    {
      name in metadata
    }

    /** `names()`: every added name once, in the order of the `add` calls (see Add). */
    function Names(): (r: seq<string>)
      reads this
      requires Valid()
      ensures forall n :: n in r <==> Has(n)
      ensures forall a, b :: 0 <= a < b < |r| ==> r[a] != r[b]
    {
      names
    }

    /** `buffer(name)`: the word offset of the parameter, or None for the null pointer. */
    function BufferOf(name: string): (r: Option<nat>)
      reads this
      requires Valid()
      ensures r.None? <==> name !in names
      ensures r.Some? ==> name in metadata && r.value == metadata[name].offset
      ensures r.Some? ==> r.value + NumberOfElements(metadata[name].kind) <= |buffer|
    {
      if name in metadata then
        var k := IndexOfName(name);
        SlotsBeforeGrow(types, k, |types|);
        Some(metadata[name].offset)
      else None
    }

    /** `metadata(name)`: the stored entry, or a value-initialised one. */
    function MetadataOf(name: string): (r: Metadata)
      reads this
      ensures name !in metadata ==> r == DefaultMetadata
      ensures name in metadata ==> r == metadata[name]
    {
      if name in metadata then metadata[name] else DefaultMetadata
    }

    function BufferSizeInBytes(): (r: nat)
      reads this
      requires Valid()
      ensures r == 4 * |buffer|
      ensures r % 64 == 0
    {
      PaddedBytes(|buffer|);
      |buffer| * 4
    }

    ghost function IndexOfName(name: string): (k: nat)
      reads this
      requires Valid() && name in names
      ensures k < |names| && names[k] == name
    {
      var k :| 0 <= k < |names| && names[k] == name; k
    }

    /** Two distinct parameters never share a word of the buffer. */
    lemma ParametersDoNotOverlap(a: string, b: string)
      requires Valid() && a in metadata && b in metadata && a != b
      ensures metadata[a].offset + NumberOfElements(metadata[a].kind) <= metadata[b].offset
           || metadata[b].offset + NumberOfElements(metadata[b].kind) <= metadata[a].offset
    {
      var ka, kb := IndexOfName(a), IndexOfName(b);
      if ka < kb {
        SlotsBeforeGrow(types, ka, kb);
      } else {
        SlotsBeforeGrow(types, kb, ka);
      }
    }

    /**
     * Private `add`: the name must be new. The parameter is placed at the
     * current end of the used area, the buffer is padded to cover it, and
     * its words are set to the default value.
     */
    method Add(name: string, defaultValue: seq<Int32>, t: Type)
      requires Valid()
      requires name !in metadata
      requires |defaultValue| >= NumberOfElements(t)
      modifies this
      ensures Valid()
      ensures metadata == old(metadata)[name := Metadata(old(lastParameterOffset), t)]
      ensures names == old(names) + [name]
      ensures lastParameterOffset == old(lastParameterOffset) + NumberOfElements(t)
      ensures |buffer| == SizeWithPadding(lastParameterOffset)
      ensures buffer[..old(lastParameterOffset)] == old(buffer)[..old(lastParameterOffset)]
      ensures buffer[old(lastParameterOffset)..lastParameterOffset] == defaultValue[..NumberOfElements(t)]
    {
      var n := NumberOfElements(t);
      var offset := lastParameterOffset;
      buffer := AppendWords(buffer, offset, defaultValue[..n]);
      lastParameterOffset := offset + n;
      AppendKeepsLayout(metadata, names, types, offset, name, t);
      metadata := metadata[name := Metadata(offset, t)];
      names := names + [name];
      types := types + [t];
    }

    /**
     * Private `set`: the name must exist. Exactly the words of that
     * parameter are overwritten.
     */
    method Set(name: string, value: seq<Int32>)
      requires Valid()
      requires name in metadata
      requires |value| >= NumberOfElements(metadata[name].kind)
      modifies this`buffer
      ensures Valid()
      ensures |buffer| == |old(buffer)|
      ensures var off, n := metadata[name].offset, NumberOfElements(metadata[name].kind);
              forall p :: 0 <= p < |buffer| ==>
                buffer[p] == if off <= p < off + n then value[p - off] else old(buffer)[p]
    {
      var offset := metadata[name].offset;
      var n := NumberOfElements(metadata[name].kind);
      var k := IndexOfName(name);
      SlotsBeforeGrow(types, k, |types|);
      assert offset + n <= lastParameterOffset <= |buffer|;
      ghost var before := buffer;
      buffer := WriteWords(buffer, offset, value[..n]);
      assert |buffer| == |before|;
      forall p | lastParameterOffset <= p < |buffer|
        ensures buffer[p] == 0
      {
        assert buffer[p] == before[p];
      }
    }
  }

  /**
   * With the switch as written, a `UInt` parameter takes no words: the
   * parameter added after it gets the same offset, so `buffer(name)` of the
   * two aliases, and the unsigned default value is never stored.
   */
  lemma UIntParameterAliasesNextAsWritten()
    ensures SlotsBeforeAsWritten([UInt, Int], 1) == SlotsBeforeAsWritten([UInt, Int], 0)
    ensures SlotsBeforeAsWritten([Int, UInt, Float], 2) == SlotsBeforeAsWritten([Int, UInt, Float], 1)
  {
  }

  /** Counted as one word, a `UInt` parameter gets a slot of its own. */
  lemma UIntParameterHasOwnSlot(types: seq<Type>, k: nat)
    requires k < |types| && types[k] == UInt
    ensures SlotsBefore(types, k + 1) == SlotsBefore(types, k) + 1
  {
  }
}
