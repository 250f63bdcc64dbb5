/** Reading and writing bit-fields through their storage, and why it is safe for the records
    `BitfieldSafety.Define` produces. */
module BitAccess {
  import opened CTypes
  import opened Bitfields
  import opened RecordTable
  import opened BitfieldSafety
  import opened Bits
  import opened Wrap

  /** `bitfield_mask_expr`: the low `width` bits. */
  function Mask(width: nat): nat {
    Pow2(width) - 1
  }

  /** `bitfield_read_expr` up to the sign: shift down, mask. */
  function Extract(storage: nat, offset: nat, width: nat): nat {
    And(Shr(storage, offset), Mask(width))
  }

  /** `bitfield_insert_expr` on a storage of `bits` bits: clear the field's bits, then or in the value's. */
  function Insert(storage: nat, value: nat, offset: nat, width: nat, bits: nat): nat {
    var fieldMask := Low(Shl(Mask(width), offset), bits);
    Or(AndNot(storage, fieldMask), Low(Shl(And(value, Mask(width)), offset), bits))
  }

  /** The cast of a value to an unsigned storage type of `bits` bits. */
  function ToUnsigned(value: int, bits: nat): nat {
    value % Pow2(bits)
  }

  /** Shift the field to the top of a signed storage and back down, which copies its sign bit. */
  function SignExtend(field: nat, width: nat, bits: nat): int
    requires 0 < width <= bits
  {
    var shift := bits - width;
    ToSigned(Low(Shl(field, shift), bits), bits) / Pow2(shift)
  }

  /** What a bit-field's storage says its value is. */
  function Read(storage: nat, f: LogicalField): int
    requires f.kind.Bitfield? && f.kind.storageTy.Uint? && 0 < f.kind.bitWidth <= StorageBits(f)
  {
    var field := Extract(storage, f.kind.bitOffset, f.kind.bitWidth);
    if f.kind.isSigned then SignExtend(field, f.kind.bitWidth, StorageBits(f)) else field
  }

  /** The storage after an assignment to the bit-field. */
  function Written(storage: nat, f: LogicalField, value: int): nat
    requires f.kind.Bitfield? && f.kind.storageTy.Uint?
  {
    Insert(storage, ToUnsigned(value, StorageBits(f)), f.kind.bitOffset, f.kind.bitWidth, StorageBits(f))
  }

  /** In a struct every emitted field is a cell of its own. */
  function Load(memory: seq<nat>, f: LogicalField): int
    requires f.kind.Bitfield? && f.kind.storageTy.Uint? && f.kind.storageIndex < |memory|
    requires 0 < f.kind.bitWidth <= StorageBits(f)
  {
    Read(memory[f.kind.storageIndex], f)
  }

  function Store(memory: seq<nat>, f: LogicalField, value: int): seq<nat>
    requires f.kind.Bitfield? && f.kind.storageTy.Uint? && f.kind.storageIndex < |memory|
  {
    memory[f.kind.storageIndex := Written(memory[f.kind.storageIndex], f, value)]
  }

  /** In a union all emitted fields are the low bits of the same word. */
  function LoadUnion(word: nat, f: LogicalField): int
    requires f.kind.Bitfield? && f.kind.storageTy.Uint? && 0 < f.kind.bitWidth <= StorageBits(f)
  {
    Read(Low(word, StorageBits(f)), f)
  }

  function StoreUnion(word: nat, f: LogicalField, value: int): nat
    requires f.kind.Bitfield? && f.kind.storageTy.Uint?
  {
    Overlay(word, Written(Low(word, StorageBits(f)), f, value), StorageBits(f))
  }

  // ---- digit by digit ----

  lemma ExtractDigits(storage: nat, offset: nat, width: nat, i: nat)
    ensures Digit(Extract(storage, offset, width), i) == (i < width && Digit(storage, i + offset))
  {
    AndDigits(Shr(storage, offset), Mask(width), i);
    ShrDigits(storage, offset, i);
    MaskDigits(width, i);
  }

  lemma ExtractFits(storage: nat, offset: nat, width: nat)
    ensures Extract(storage, offset, width) < Pow2(width)
  {
    AndFits(Shr(storage, offset), Mask(width));
  }

  lemma InsertDigits(storage: nat, value: nat, offset: nat, width: nat, bits: nat, i: nat)
    requires offset + width <= bits
    ensures Digit(Insert(storage, value, offset, width, bits), i)
            == if offset <= i < offset + width then Digit(value, i - offset) else Digit(storage, i)
  {
    var fieldMask := Low(Shl(Mask(width), offset), bits);
    var field := Low(Shl(And(value, Mask(width)), offset), bits);
    OrDigits(AndNot(storage, fieldMask), field, i);
    AndNotDigits(storage, fieldMask, i);
    LowDigits(Shl(Mask(width), offset), bits, i);
    LowDigits(Shl(And(value, Mask(width)), offset), bits, i);
    ShlDigits(Mask(width), offset, i);
    ShlDigits(And(value, Mask(width)), offset, i);
    if i >= offset {
      MaskDigits(width, i - offset);
      AndDigits(value, Mask(width), i - offset);
    }
  }

  lemma InsertFits(storage: nat, value: nat, offset: nat, width: nat, bits: nat)
    requires storage < Pow2(bits)
    ensures Insert(storage, value, offset, width, bits) < Pow2(bits)
  {
    var fieldMask := Low(Shl(Mask(width), offset), bits);
    AndNotFits(storage, fieldMask);
    OrFits(AndNot(storage, fieldMask), Low(Shl(And(value, Mask(width)), offset), bits), bits);
  }

  /** Reading back what was just written gives its low bits. */
  lemma ExtractInserted(storage: nat, value: nat, offset: nat, width: nat, bits: nat)
    requires offset + width <= bits
    ensures Extract(Insert(storage, value, offset, width, bits), offset, width) == Low(value, width)
  {
    var after := Insert(storage, value, offset, width, bits);
    ExtractFits(after, offset, width);
    if Extract(after, offset, width) != Low(value, width) {
      var i := DifferingDigit(Extract(after, offset, width), Low(value, width), width);
      ExtractDigits(after, offset, width, i);
      InsertDigits(storage, value, offset, width, bits, i + offset);
      LowDigits(value, width, i);
    }
  }

  /** Writing one range of bits leaves a disjoint range alone. */
  lemma ExtractUntouched(storage: nat, value: nat, offset: nat, width: nat, bits: nat, otherOffset: nat, otherWidth: nat)
    requires offset + width <= bits
    requires offset + width <= otherOffset || otherOffset + otherWidth <= offset
    ensures Extract(Insert(storage, value, offset, width, bits), otherOffset, otherWidth) == Extract(storage, otherOffset, otherWidth)
  {
    var after := Insert(storage, value, offset, width, bits);
    ExtractFits(after, otherOffset, otherWidth);
    ExtractFits(storage, otherOffset, otherWidth);
    if Extract(after, otherOffset, otherWidth) != Extract(storage, otherOffset, otherWidth) {
      var i := DifferingDigit(Extract(after, otherOffset, otherWidth), Extract(storage, otherOffset, otherWidth), otherWidth);
      ExtractDigits(after, otherOffset, otherWidth, i);
      ExtractDigits(storage, otherOffset, otherWidth, i);
      InsertDigits(storage, value, offset, width, bits, i + otherOffset);
    }
  }

  lemma ShiftedUp(field: nat, width: nat, bits: nat)
    requires 0 < width <= bits && field < Pow2(width)
    ensures Low(Shl(field, bits - width), bits) == field * Pow2(bits - width) < Pow2(bits)
  {
    var p := Pow2(bits - width);
    ShlIsTimes(field, bits - width);
    Pow2Add(width, bits - width);
    Scaled(field, Pow2(width), p);
    LowIsMod(Shl(field, bits - width), bits);
    UniqueRemainder(field * p, 0, Pow2(bits), field * p);
  }

  lemma TopBit(field: nat, width: nat, bits: nat)
    requires 0 < width <= bits && field < Pow2(width)
    ensures ToSigned(field * Pow2(bits - width), bits) == ToSigned(field, width) * Pow2(bits - width)
  {
    var p := Pow2(bits - width);
    Pow2Add(width, bits - width);
    Pow2Add(width - 1, bits - width);
    if field < Pow2(width - 1) {
      Scaled(field, Pow2(width - 1), p);
    } else {
      NotScaled(Pow2(width - 1), field, p);
      Distribute(field, Pow2(width), p);
    }
  }

  lemma Distribute(a: int, b: int, p: int)
    ensures (a - b) * p == a * p - b * p
  {
  }

  /** The shifts copy the field's top bit: the result is the field read as two's complement. */
  lemma SignExtendValue(field: nat, width: nat, bits: nat)
    requires 0 < width <= bits && field < Pow2(width)
    ensures SignExtend(field, width, bits) == ToSigned(field, width)
  {
    ShiftedUp(field, width, bits);
    TopBit(field, width, bits);
    var k, p := ToSigned(field, width), Pow2(bits - width);
    UniqueRemainder(k * p, k, p, 0);
  }

  lemma Scaled(a: nat, b: nat, p: nat)
    requires a < b && p > 0
    ensures a * p < b * p
  {
  }

  lemma NotScaled(a: nat, b: nat, p: nat)
    requires a <= b
    ensures a * p <= b * p
  {
  }

  // ---- the record ----

  /** Every emitted unsigned storage holds a value of its width. */
  ghost predicate Holds(emitted: seq<StructField>, memory: seq<nat>) {
    |memory| == |emitted|
    && forall i :: 0 <= i < |emitted| && emitted[i].ty.Uint? ==> memory[i] < Pow2(IntBits(emitted[i].ty.uw))
  }

  lemma Regroup(q: int, q2: int, small: int, k: int)
    ensures q * (small * k) + q2 * small == (q * k + q2) * small
  {
  }

  lemma ModOfMod(value: int, small: int, k: int)
    requires small > 0 && k > 0 && small * k > 0
    ensures (value % (small * k)) % small == value % small
  {
    var q, r := value / (small * k), value % (small * k);
    var q2, r2 := r / small, r % small;
    Regroup(q, q2, small, k);
    UniqueRemainder(value, q * k + q2, small, r2);
  }

  lemma ModMod(value: int, width: nat, bits: nat)
    requires width <= bits
    ensures (value % Pow2(bits)) % Pow2(width) == value % Pow2(width)
  {
    Pow2Add(width, bits - width);
    ModOfMod(value, Pow2(width), Pow2(bits - width));
  }

  /** A bit-field reads back what was assigned to it, reduced to its width and sign. */
  lemma LoadStored(emitted: seq<StructField>, memory: seq<nat>, f: LogicalField, value: int)
    requires Holds(emitted, memory) && Housed(emitted, f) && f.kind.Bitfield?
    ensures Holds(emitted, Store(memory, f, value))
    ensures Load(Store(memory, f, value), f) == Reduce(value, f.kind.bitWidth, f.kind.isSigned)
  {
    var bits, v := StorageBits(f), ToUnsigned(value, StorageBits(f));
    var storage := memory[f.kind.storageIndex];
    InsertFits(storage, v, f.kind.bitOffset, f.kind.bitWidth, bits);
    ExtractInserted(storage, v, f.kind.bitOffset, f.kind.bitWidth, bits);
    LowIsMod(v, f.kind.bitWidth);
    ModMod(value, f.kind.bitWidth, bits);
    if f.kind.isSigned { SignExtendValue(Low(v, f.kind.bitWidth), f.kind.bitWidth, bits); }
  }

  /** Writing a bit-field's cell changes no other field of a safe table. */
  lemma CellsApart(emitted: seq<StructField>, logical: seq<LogicalField>, memory: seq<nat>, j: nat, k: nat, value: int)
    requires Safe(emitted, logical) && Holds(emitted, memory)
    requires j < |logical| && k < |logical| && j != k && logical[j].kind.Bitfield?
    requires Housed(emitted, logical[j]) && Housed(emitted, logical[k])
    ensures logical[k].kind.Bitfield? ==> Load(Store(memory, logical[j], value), logical[k]) == Load(memory, logical[k])
    ensures logical[k].kind.Direct? ==> Store(memory, logical[j], value)[Slot(logical[k])] == memory[Slot(logical[k])]
  {
    var f, g := logical[j], logical[k];
    assert if j < k then Ordered(f, g) else Ordered(g, f);
    if g.kind.Bitfield? && Slot(f) == Slot(g) {
      ExtractUntouched(memory[Slot(f)], ToUnsigned(value, StorageBits(f)), f.kind.bitOffset, f.kind.bitWidth, StorageBits(f),
                       g.kind.bitOffset, g.kind.bitWidth);
    }
  }

  /** The struct laid out for these members, and cells that fit it. */
  ghost predicate IsStruct(members: seq<Member>, pack: Option<nat>, r: Layout, memory: seq<nat>) {
    Define(Struct, members, pack) == Ok(r) && Holds(r.emitted, memory)
  }

  /** Assigning one bit-field of an accepted struct changes no other bit-field and no plain member. */
  lemma OthersUntouched(members: seq<Member>, pack: Option<nat>, r: Layout, memory: seq<nat>, j: nat, k: nat, value: int)
    requires IsStruct(members, pack, r, memory)
    requires j < |r.logical| && k < |r.logical| && j != k && r.logical[j].kind.Bitfield?
    ensures Housed(r.emitted, r.logical[j]) && Housed(r.emitted, r.logical[k])
    ensures r.logical[k].kind.Bitfield? ==> Load(Store(memory, r.logical[j], value), r.logical[k]) == Load(memory, r.logical[k])
    ensures r.logical[k].kind.Direct? ==> Store(memory, r.logical[j], value)[Slot(r.logical[k])] == memory[Slot(r.logical[k])]
  {
    RecordSafe(Struct, members, pack);
    CellsApart(r.emitted, r.logical, memory, j, k, value);
  }

  /** In any struct the compiler accepts, bit-fields behave as separate variables. */
  lemma StructFieldsIndependent(members: seq<Member>, pack: Option<nat>, r: Layout, memory: seq<nat>, j: nat, k: nat, value: int)
    requires IsStruct(members, pack, r, memory)
    requires j < |r.logical| && k < |r.logical| && r.logical[j].kind.Bitfield? && r.logical[k].kind.Bitfield?
    ensures Housed(r.emitted, r.logical[j]) && Housed(r.emitted, r.logical[k])
    ensures Load(Store(memory, r.logical[j], value), r.logical[k])
            == if j == k then Reduce(value, r.logical[j].kind.bitWidth, r.logical[j].kind.isSigned) else Load(memory, r.logical[k])
  {
    RecordSafe(Struct, members, pack);
    assert Housed(r.emitted, r.logical[j]) && Housed(r.emitted, r.logical[k]);
    if j == k {
      LoadStored(r.emitted, memory, r.logical[j], value);
    } else {
      OthersUntouched(members, pack, r, memory, j, k, value);
    }
  }

  // ---- unions ----

  /** A bit-field at the bottom of its storage. */
  predicate AtBottom(f: LogicalField) {
    f.kind.Bitfield? && f.kind.storageTy.Uint? && f.kind.bitOffset == 0 && 0 < f.kind.bitWidth <= StorageBits(f)
  }

  lemma {:induction false} UnionStarts(members: seq<Member>, n: nat)
    requires n <= |members| && AddAll(Union, members, n).Ok?
    ensures forall f :: f in AddAll(Union, members, n).value.logical && f.kind.Bitfield? ==> f.kind.bitOffset == 0
    decreases n
  {
    if n > 0 {
      UnionStarts(members, n - 1);
      var st := AddAll(Union, members, n - 1).value;
      assert CloseUnit(st) == st;
    }
  }

  /** Every bit-field of an accepted union starts at bit 0 of its storage. */
  lemma UnionAtBottom(members: seq<Member>, pack: Option<nat>, k: nat)
    requires Define(Union, members, pack).Ok?
    requires k < |Define(Union, members, pack).value.logical| && Define(Union, members, pack).value.logical[k].kind.Bitfield?
    ensures AtBottom(Define(Union, members, pack).value.logical[k])
  {
    RecordSafe(Union, members, pack);
    UnionStarts(members, |members|);
    var r := Define(Union, members, pack).value;
    assert r.logical == AddAll(Union, members, |members|).value.logical;
    assert Housed(r.emitted, r.logical[k]) && r.logical[k] in r.logical;
  }

  lemma {:induction false} InSomeWidth(word: nat) returns (n: nat)
    ensures word < Pow2(n)
  {
    n := 0;
    if word > 0 {
      n := InSomeWidth(word / 2);
      n := n + 1;
    }
  }

  lemma OverlayKeepsLow(word: nat, value: int, width: nat, bits: nat)
    requires width <= bits
    ensures Overlay(word, value % Pow2(bits), width) == Overlay(word, value, width)
  {
    ModMod(value, width, bits);
  }

  /** Assigning a bit-field replaces as many low bits of the word as the field is wide, and no others. */
  lemma StoreUnionReplaces(word: nat, f: LogicalField, value: int)
    requires AtBottom(f)
    ensures StoreUnion(word, f, value) == Overlay(word, value, f.kind.bitWidth)
  {
    var bits, w, v := StorageBits(f), f.kind.bitWidth, ToUnsigned(value, StorageBits(f));
    var written := Written(Low(word, bits), f, value);
    OverlayKeepsLow(word, value, w, bits);
    var after, expected := StoreUnion(word, f, value), Overlay(word, v, w);
    var n := InSomeWidth(after + expected);
    if after != expected {
      var i := DifferingDigit(after, expected, n);
      OverlayDigits(word, written, bits, i);
      InsertDigits(Low(word, bits), v, 0, w, bits, i);
      LowDigits(word, bits, i);
      OverlayDigits(word, v, w, i);
    }
  }

  /** Reading a bit-field takes as many low bits of the word as the field is wide. */
  lemma LoadUnionReads(word: nat, f: LogicalField)
    requires AtBottom(f)
    ensures LoadUnion(word, f) == Reduce(word, f.kind.bitWidth, f.kind.isSigned)
  {
    var bits, w := StorageBits(f), f.kind.bitWidth;
    var field := Extract(Low(word, bits), 0, w);
    ExtractFits(Low(word, bits), 0, w);
    if field != Low(word, w) {
      var i := DifferingDigit(field, Low(word, w), w);
      ExtractDigits(Low(word, bits), 0, w, i);
      LowDigits(word, bits, i);
      LowDigits(word, w, i);
    }
    LowIsMod(word, w);
    if f.kind.isSigned { SignExtendValue(field, w, bits); }
  }

  /** In any union the compiler accepts, storing field `j` and then reading field `k` gives `k`'s reading of the
      low bits of `j`'s value below the width of `j` and of `k`'s old bits above. */
  lemma UnionFieldsOverlay(members: seq<Member>, pack: Option<nat>, r: Layout, word: nat, j: nat, k: nat, value: int)
    requires Define(Union, members, pack) == Ok(r)
    requires j < |r.logical| && k < |r.logical| && r.logical[j].kind.Bitfield? && r.logical[k].kind.Bitfield?
    ensures AtBottom(r.logical[j]) && AtBottom(r.logical[k])
    ensures var f, g := r.logical[j].kind, r.logical[k].kind;
            && LoadUnion(StoreUnion(word, r.logical[j], value), r.logical[k])
               == Reduce(Overlay(word, value, f.bitWidth), g.bitWidth, g.isSigned)
            && (g.bitWidth <= f.bitWidth
                ==> LoadUnion(StoreUnion(word, r.logical[j], value), r.logical[k]) == Reduce(value, g.bitWidth, g.isSigned))
  {
    UnionAtBottom(members, pack, j);
    UnionAtBottom(members, pack, k);
    var f, g := r.logical[j], r.logical[k];
    StoreUnionReplaces(word, f, value);
    LoadUnionReads(Overlay(word, value, f.kind.bitWidth), g);
    if g.kind.bitWidth <= f.kind.bitWidth { OverlayLow(word, value, f.kind.bitWidth, g.kind.bitWidth); }
  }

  lemma OverlayLow(word: nat, value: int, width: nat, n: nat)
    requires n <= width
    ensures Overlay(word, value, width) % Pow2(n) == value % Pow2(n)
  {
    var v := value % Pow2(width);
    OverlayKeepsLow(word, value, width, width);
    ModMod(value, n, width);
    LowIsMod(Overlay(word, v, width), n);
    LowIsMod(v, n);
    if Low(Overlay(word, v, width), n) != Low(v, n) {
      var i := DifferingDigit(Low(Overlay(word, v, width), n), Low(v, n), n);
      LowDigits(Overlay(word, v, width), n, i);
      LowDigits(v, n, i);
      OverlayDigits(word, v, width, i);
    }
  }

  lemma SameParity(a: int, b: int, m: int)
    requires Congruent(a, b, 2 * m)
    ensures a % 2 == b % 2
  {
    var k :| Differ(a, b, 2 * m, k);
    assert a == b + 2 * (k * m) by { assert k * (2 * m) == 2 * (k * m); }
  }

  /** So unlike in a struct, no bit-field of a union is safe from an assignment to another: whatever the union
      holds, some value stored in `j` changes `k`. */
  lemma UnionFieldsInterfere(members: seq<Member>, pack: Option<nat>, r: Layout, word: nat, j: nat, k: nat) returns (value: int)
    requires Define(Union, members, pack) == Ok(r)
    requires j < |r.logical| && k < |r.logical| && r.logical[j].kind.Bitfield? && r.logical[k].kind.Bitfield?
    ensures AtBottom(r.logical[j]) && AtBottom(r.logical[k])
    ensures LoadUnion(StoreUnion(word, r.logical[j], value), r.logical[k]) != LoadUnion(word, r.logical[k])
  {
    value := 1 - word % 2;
    UnionFieldsOverlay(members, pack, r, word, j, k, value);
    LoadUnionReads(word, r.logical[k]);
    FlippedReads(word, value, r.logical[j].kind.bitWidth, r.logical[k].kind.bitWidth, r.logical[k].kind.isSigned);
  }

  lemma FlippedReads(word: nat, value: nat, width: nat, other: nat, isSigned: bool)
    requires value == 1 - word % 2 && width > 0 && other > 0
    ensures Reduce(Overlay(word, value, width), other, isSigned) != Reduce(word, other, isSigned)
  {
    var after := Overlay(word, value, width);
    OverlayLow(word, value, width, 1);
    assert Pow2(1) == 2;
    if Reduce(after, other, isSigned) == Reduce(word, other, isSigned) {
      ReduceEqual(after, word, other, isSigned);
      SameParity(after, word, Pow2(other - 1));
    }
  }
}
