/**
 Type-Length-Value structures laid out one behind the other in 32-bit words: two header words, then
 the value. Lengths are in bytes and do not include the header.
 */
module Tlvs {
  import opened Words

  const HEADER: nat := 8
  const HALF: int := 0x8000_0000

  /** The cast to a signed 32-bit integer. */
  function AsInt32(x: Word): int {
    if x < HALF then x else x - WORD
  }

  datatype Tlv = Tlv(kind: Word, value: seq<Word>)

  /** Values have at least one word, and the list fits the signed size of an iterator. */
  ghost predicate Wellformed(list: seq<Tlv>) {
    && (forall i :: 0 <= i < |list| ==> list[i].value != [])
    && 4 * |Encode(list)| < HALF
  }

  ghost function EncodeOne(t: Tlv): seq<int> {
    [t.kind, 4 * |t.value|] + t.value
  }

  /** The layout of a list. */
  ghost function Encode(list: seq<Tlv>): seq<int> {
    if list == [] then [] else EncodeOne(list[0]) + Encode(list[1..])
  }

  lemma {:induction false} EncodeAppend(list: seq<Tlv>, t: Tlv)
    ensures Encode(list + [t]) == Encode(list) + EncodeOne(t)
  {
    if list == [] {
      assert list + [t] == [t] && [t][1..] == [];
    } else {
      assert (list + [t])[0] == list[0] && (list + [t])[1..] == list[1..] + [t];
      EncodeAppend(list[1..], t);
    }
  }

  /** The first structure of a layout, and what follows it. */
  lemma FirstWords(list: seq<Tlv>)
    requires list != []
    ensures var words := Encode(list);
            var k := |list[0].value|;
            && |words| == 2 + k + |Encode(list[1..])|
            && words[0] == list[0].kind && words[1] == 4 * k
            && words[2..2 + k] == list[0].value
            && words[2 + k..] == Encode(list[1..])
  {
    var first, rest := EncodeOne(list[0]), Encode(list[1..]);
    assert Encode(list) == first + rest;
    assert first[2..] == list[0].value;
  }

  /** Its header passes the check. */
  lemma FirstAccepted(list: seq<Tlv>)
    requires Wellformed(list) && list != []
    ensures var length := 4 * |list[0].value|;
            0 < length && length + HEADER < HALF && Accepts(length, 4 * |Encode(list)|)
    ensures Wellformed(list[1..])
  {
    FirstWords(list);
    assert list[0].value != [];
    forall i | 0 <= i < |list[1..]|
      ensures list[1..][i].value != []
    {
      assert list[1..][i] == list[i + 1];
    }
  }

  /** The check of IsValid, on the header's length and the remaining size. */
  predicate Accepts(length: Word, size: int) {
    size > 0 && length != 0 && size >= AsInt32((length + HEADER) % WORD)
  }

  /** The check means "a non-empty value that fits" exactly for lengths whose sum with the header
      does not reach the sign bit; beyond that it accepts some lengths that do not fit. */
  lemma AcceptsMeansFits(length: Word, size: int)
    requires 0 < size < HALF
    ensures length + HEADER < HALF ==> (Accepts(length, size) <==> length != 0 && length + HEADER <= size)
    ensures length + HEADER >= HALF ==>
              length + HEADER > size
              && (Accepts(length, size) <==> length + HEADER < WORD || size >= length + HEADER - WORD)
  {
  }

  /** A header that asks for almost 4 GiB passes the check with 12 bytes left. */
  lemma MisfitExample()
    ensures Accepts(0xffff_fff8, 12) && 0xffff_fff8 + HEADER > 12
  {
  }

  /** The subtraction of a structure from the remaining size, in 32 bits. */
  function Reduced(size: int, length: Word): (left: int)
    ensures -HALF <= left < HALF && (left - (size - (length + HEADER))) % WORD == 0
  {
    AsInt32((size - (length + HEADER) % WORD) % WORD)
  }

  /** The remaining size is exact below the sign bit. In general it shrinks iff the 32-bit size of the
      structure is not 0 and the difference does not wrap. */
  lemma ReducedShrinksIff(size: int, length: Word)
    requires 0 < size < HALF
    ensures length + HEADER < HALF ==> Reduced(size, length) == size - (length + HEADER)
    ensures Reduced(size, length) < size <==> 0 < (length + HEADER) % WORD <= size + HALF
  {
    var last := (length + HEADER) % WORD;
    assert (size - last) % WORD == if last <= size then size - last else size - last + WORD;
  }

  class TlvIterator {
    const memory: array<Word>
    /** Word index of the current structure. */
    var tlv: nat
    /** Bytes from there to the end of the last structure. */
    var size: int

    constructor (memory: array<Word>, tlv: nat, size: int)
      ensures this.memory == memory && this.tlv == tlv && this.size == size
    {
      this.memory := memory;
      this.tlv := tlv;
      this.size := size;
    }

    predicate HeaderReadable()
      reads this
    {
      tlv + 2 <= memory.Length
    }

    predicate IsValid()
      requires size > 0 ==> HeaderReadable()
      reads this, memory
    {
      size > 0 && Accepts(memory[tlv + 1], size)
    }

    function GetType(): Word
      requires HeaderReadable()
      reads this, memory
    {
      memory[tlv]
    }

    function GetLength(): Word
      requires HeaderReadable()
      reads this, memory
    {
      memory[tlv + 1]
    }

    /** The value's address, unless the requested type is larger than the value. */
    function GetValueAsPtr(sizeofT: nat): Option<nat>
      requires HeaderReadable()
      reads this, memory
    {
      if sizeofT > GetLength() then None else Some(tlv + 2)
    }

    method InitTlvAndGetValueAsPtr(kind: Word, length: Word, sizeofT: nat) returns (p: Option<nat>)
      requires HeaderReadable()
      modifies memory
      ensures memory[..] == old(memory[..])[tlv := kind][tlv + 1 := length]
      ensures p == if sizeofT > length then None else Some(tlv + 2)
    {
      memory[tlv] := kind;
      memory[tlv + 1] := length;
      p := GetValueAsPtr(sizeofT);
    }

    /** Writes header and value of one structure. */
    method InitTlv(kind: Word, value: seq<Word>)
      requires tlv + 2 + |value| <= memory.Length && 4 * |value| < WORD
      modifies memory
      ensures memory[..] == old(memory[..tlv]) + [kind, 4 * |value|] + value + old(memory[tlv + 2 + |value|..])
    {
      var p := InitTlvAndGetValueAsPtr(kind, 4 * |value|, 4 * |value|);
      forall i | 0 <= i < |value| {
        memory[p.value + i] := value[i];
      }
    }

    /** operator++. The cursor and the remaining size move together exactly for word-multiple lengths;
        otherwise the cursor falls behind by the odd bytes. */
    method Next()
      requires HeaderReadable() && -HALF <= size < HALF
      modifies this
      ensures tlv == old(tlv) + 2 + old(GetLength()) / 4
      ensures size == Reduced(old(size), old(GetLength()))
      ensures 0 < old(size) && old(GetLength()) + HEADER < HALF ==>
                && size == old(size) - (old(GetLength()) + HEADER) < old(size)
                && 4 * tlv + size == old(4 * tlv + size) - old(GetLength()) % 4
    {
      var lastSize := (GetLength() + HEADER) % WORD;
      if size > 0 {
        ReducedShrinksIff(size, GetLength());
      }
      tlv := tlv + 2 + GetLength() / 4;
      size := AsInt32((size - lastSize) % WORD);
    }

    /** Lays a list out with InitTlv and operator++. */
    method Build(list: seq<Tlv>)
      requires Wellformed(list) && tlv + |Encode(list)| <= memory.Length && size == 4 * |Encode(list)|
      modifies this, memory
      ensures size == 0 && tlv == old(tlv) + |Encode(list)|
      ensures memory[old(tlv)..tlv] == Encode(list)
      ensures memory[..old(tlv)] == old(memory[..tlv])
      ensures memory[tlv..] == old(memory[..])[tlv..]
    {
      ghost var start, before := tlv, memory[..];
      ghost var done: seq<Tlv> := [];
      var rest := list;
      while rest != []
        invariant done + rest == list && Wellformed(rest)
        invariant tlv == start + |Encode(done)| && size == 4 * |Encode(rest)|
        invariant tlv + |Encode(rest)| <= memory.Length
        invariant memory[..] == before[..start] + Encode(done) + before[tlv..]
        decreases |rest|
      {
        FirstWords(rest);
        FirstAccepted(rest);
        EncodeAppend(done, rest[0]);
        Place(rest[0].kind, rest[0].value, start, before, Encode(done));
        assert done + rest == (done + [rest[0]]) + rest[1..];
        done := done + [rest[0]];
        rest := rest[1..];
      }
      assert done == list;
    }

    /** One round of building: writes a structure and steps behind it. */
    method Place(kind: Word, value: seq<Word>, ghost start: nat, ghost before: seq<Word>, ghost words: seq<int>)
      requires tlv + 2 + |value| <= memory.Length == |before| && 4 * |value| + HEADER < HALF
      requires 4 * |value| + HEADER <= size < HALF
      requires tlv == start + |words| && memory[..] == before[..start] + words + before[tlv..]
      modifies this, memory
      ensures tlv == old(tlv) + 2 + |value| && size == old(size) - 4 * (2 + |value|)
      ensures memory[..] == before[..start] + (words + ([kind, 4 * |value|] + value)) + before[tlv..]
    {
      InitTlv(kind, value);
      Next();
    }

    /** From the cursor to the end of the remaining size lies the layout of a list. */
    ghost predicate Holds(list: seq<Tlv>)
      reads this, memory
    {
      && Wellformed(list)
      && tlv + |Encode(list)| <= memory.Length && size == 4 * |Encode(list)|
      && memory[..][tlv..tlv + |Encode(list)|] == Encode(list)
    }

    /** The iterator is valid exactly while structures remain. */
    lemma ValidIffMore(list: seq<Tlv>)
      requires Holds(list)
      ensures list != [] ==> HeaderReadable() && memory[tlv] == list[0].kind && memory[tlv + 1] == 4 * |list[0].value|
      ensures (size > 0 ==> HeaderReadable()) && (IsValid() <==> list != [])
    {
      if list != [] {
        FirstWords(list);
        FirstAccepted(list);
        ghost var words := memory[..][tlv..tlv + |Encode(list)|];
        assert memory[tlv] == words[0] && memory[tlv + 1] == words[1];
      }
    }

    /** The documented reading loop: it visits the structures in order and ends at size 0. */
    method ReadAll(ghost list: seq<Tlv>) returns (found: seq<Tlv>)
      requires Holds(list)
      modifies this
      ensures found == list && size == 0 && 4 * tlv + size == old(4 * tlv + size)
    {
      found := [];
      ghost var rest := list;
      ValidIffMore(rest);
      while IsValid()
        invariant found + rest == list && Holds(rest)
        invariant 4 * tlv + size == old(4 * tlv + size)
        invariant (size > 0 ==> HeaderReadable()) && (IsValid() <==> rest != [])
        decreases size
      {
        var one := ReadOne(rest);
        assert found + rest == (found + [one]) + rest[1..];
        found := found + [one];
        rest := rest[1..];
        ValidIffMore(rest);
      }
    }

    /** One round of reading. */
    method ReadOne(ghost list: seq<Tlv>) returns (one: Tlv)
      requires Holds(list) && list != []
      modifies this
      ensures one == list[0] && size < old(size) && 4 * tlv + size == old(4 * tlv + size)
      ensures Holds(list[1..])
    {
      FirstStructure(list);
      ghost var words, k := memory[..], |list[0].value|;
      var count := GetLength() / 4;
      one := Tlv(GetType(), memory[tlv + 2..tlv + 2 + count]);
      Next();
      assert memory[..] == words;
    }

    /** Where the first structure lies, and what follows it. */
    lemma FirstStructure(list: seq<Tlv>)
      requires Holds(list) && list != []
      ensures var k := |list[0].value|;
              && tlv + 2 + k <= memory.Length
              && memory[tlv] == list[0].kind && memory[tlv + 1] == 4 * k
              && memory[tlv + 2..tlv + 2 + k] == list[0].value
              && 0 < 4 * k + HEADER <= size < HALF
              && Wellformed(list[1..])
              && tlv + 2 + k + |Encode(list[1..])| <= memory.Length
              && size == 4 * (2 + k) + 4 * |Encode(list[1..])|
              && memory[..][tlv + 2 + k..tlv + 2 + k + |Encode(list[1..])|] == Encode(list[1..])
    {
      FirstWords(list);
      FirstAccepted(list);
      ghost var k, n := |list[0].value|, |Encode(list)|;
      SliceOfSlice(memory[..], tlv, n, 2, 2 + k);
      SliceOfSlice(memory[..], tlv, n, 2 + k, n);
      assert memory[tlv] == memory[..][tlv..tlv + n][0] && memory[tlv + 1] == memory[..][tlv..tlv + n][1];
    }
  }

  lemma SliceOfSlice<T>(s: seq<T>, start: nat, n: nat, a: nat, b: nat)
    requires a <= b <= n && start + n <= |s|
    ensures s[start..start + n][a..b] == s[start + a..start + b]
  {
    var left, right := s[start..start + n][a..b], s[start + a..start + b];
    forall i | 0 <= i < |left|
      ensures left[i] == right[i]
    {
      assert s[start..start + n][a + i] == s[start + (a + i)];
    }
  }
}
