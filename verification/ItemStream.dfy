/**
 The byte stream of an item and all that is in it (`IOMapSerialize::saveItem`, `loadItem` and `loadContainer` in
 src/io/iomapserialize.cpp, `Item::serializeAttr`, `readAttr` and `unserializeAttr` in src/items/item.cpp, the streams
 of src/io/fileloader.h).

 Items are values here: a type, the attributes that are set, and for a container what it holds, front first.  The
 streams are objects that the recursion shares.
 */
module ItemStream {
  import opened Basics
  import opened Wrappers

  // ----- Numbers and strings as bytes ----------------------------------------------------------

  function Power(width: nat): (r: int)
    ensures r >= 1
  {
    if width == 0 then 1 else 256 * Power(width - 1)
  }

  /** The low `width` bytes of a number, lowest first. */
  function Bytes(n: nat, width: nat): (r: seq<byte>)
    ensures |r| == width
  {
    if width == 0 then [] else [n % 256] + Bytes(n / 256, width - 1)
  }

  function Number(s: seq<byte>): nat {
    if s == [] then 0 else s[0] + 256 * Number(s[1..])
  }

  lemma {:induction false} NumberOfBytes(n: nat, width: nat)
    requires n < Power(width)
    ensures Number(Bytes(n, width)) == n
    decreases width
  {
    if width > 0 {
      assert n / 256 < Power(width - 1);
      NumberOfBytes(n / 256, width - 1);
      assert Bytes(n, width)[1..] == Bytes(n / 256, width - 1);
    }
  }

  /** Two's complement: what a cast to an unsigned word of that width makes of a number. */
  function Wrap(n: int, width: nat): nat {
    n % Power(width)
  }

  lemma {:induction false} WrapFits(n: int, width: nat)
    ensures Wrap(n, width) < Power(width)
    ensures 0 <= n < Power(width) ==> Wrap(n, width) == n
  {
    hide Power;
    if 0 <= n < Power(width) {
      Divides(n, Power(width), 0, n);
    }
  }

  function Signed(n: nat, width: nat): int {
    if 2 * n >= Power(width) then n - Power(width) else n
  }

  lemma {:induction false} SignedOfWrap(n: int, width: nat)
    requires -Power(width) <= 2 * n < Power(width)
    ensures Signed(Wrap(n, width), width) == n
  {
    hide Power;
    if n < 0 {
      Divides(n, Power(width), -1, n + Power(width));
    } else {
      Divides(n, Power(width), 0, n);
    }
  }

  const MAX_STRING := 0xFFFF

  /** writeString: a string that is too long is written as an empty one. */
  function StringBytes(s: seq<byte>): seq<byte> {
    if |s| > MAX_STRING then Bytes(0, 2) else Bytes(|s|, 2) + s
  }

  /** Reading a number of that many bytes at `p`, if they are there. */
  function ReadNumber(data: seq<byte>, p: nat, width: nat): (n: Option<nat>)
    requires p <= |data|
    ensures n.Some? ==> p + width <= |data|
  {
    if |data| - p < width then None else Some(Number(data[p..p + width]))
  }

  function ReadString(data: seq<byte>, p: nat): (r: Option<(seq<byte>, nat)>)
    requires p <= |data|
    ensures r.Some? ==> p < r.value.1 <= |data|
  {
    match ReadNumber(data, p, 2)
    case None => None
    case Some(length) =>
      if |data| - (p + 2) < length then None else Some((data[p + 2..p + 2 + length], p + 2 + length))
  }

  lemma {:induction false} AtFits(data: seq<byte>, p: nat, piece: seq<byte>)
    requires At(data, p, piece)
    ensures p + |piece| <= |data|
  {
  }

  lemma {:induction false} AtHead(data: seq<byte>, p: nat, b: byte, rest: seq<byte>)
    requires At(data, p, [b] + rest)
    ensures p < |data| && data[p] == b && At(data, p + 1, rest)
  {
    AtSplit(data, p, [b], rest);
    assert data[p + 0] == [b][0];
  }

  lemma {:induction false} ReadWrittenNumber(data: seq<byte>, p: nat, n: nat, width: nat)
    requires n < Power(width) && At(data, p, Bytes(n, width))
    ensures ReadNumber(data, p, width) == Some(n)
  {
    NumberOfBytes(n, width);
    assert data[p..p + width] == Bytes(n, width);
  }

  /** What comes back of a string: of one that is too long nothing. */
  function CarriedString(s: seq<byte>): seq<byte> {
    if |s| > MAX_STRING then [] else s
  }

  lemma {:induction false} ReadWrittenString(data: seq<byte>, p: nat, s: seq<byte>)
    requires At(data, p, StringBytes(s))
    ensures ReadString(data, p) == Some((CarriedString(s), p + |StringBytes(s)|))
  {
    var t := CarriedString(s);
    assert StringBytes(s) == Bytes(|t|, 2) + t;
    AtSplit(data, p, Bytes(|t|, 2), t);
    assert Power(2) == 0x1_0000;
    ReadWrittenNumber(data, p, |t|, 2);
    assert data[p + 2..p + 2 + |t|] == t;
  }

  // ----- Attributes ----------------------------------------------------------------------------

  /** What an item can have set; `Count` is the stack size. */
  datatype Field =
    | Count | FluidType | Charges | ActionId | UniqueId | Owner | CorpseOwner | DoorId
    | Date | Duration | DurationTimestamp | DecayState
    | Weight | Attack | Defense | ExtraDefense | ImbuementSlot | OpenContainer | Armor | HitChance | ShootRange
    | Quickloot | Text | Writer | Description | Name | Article | PluralName | Special | Custom

  /** A custom attribute; a double is its eight bytes. */
  datatype CustomValue = Blank | Str(s: seq<byte>) | Int(n: int) | Double(bits: nat) | Bool(b: bool)

  /** Custom attributes are listed in the order in which the unordered map yields them. */
  datatype Value = Num(n: int) | Chars(s: seq<byte>) | Pairs(pairs: seq<(seq<byte>, CustomValue)>)

  type Attributes = map<Field, Value>

  /** What the streams need to know of an item type; `fluid` is for fluid containers and splashes. */
  datatype ItemType = ItemType(
    isContainer: bool, stackable: bool, fluid: bool, charges: nat, defaultDuration: nat, moveable: bool)

  /** The item types that CreateItem makes an item of, under the same id. */
  type Catalog = map<nat, ItemType>

  datatype Item = Item(id: nat, attributes: Attributes, items: seq<Item>)

  /** The field that setSubType sets. */
  function SubType(t: ItemType): Field {
    if t.fluid then FluidType else if t.stackable then Count else if t.charges != 0 then Charges else Count
  }

  /** The attributes of a new item of the type. */
  function Fresh(t: ItemType): Attributes {
    var count := if t.stackable then 1 else 0;
    var made: Attributes :=
      if t.fluid then map[Count := Num(1), FluidType := Num(count)]
      else if t.stackable then map[Count := Num(1)]
      else if t.charges != 0 then map[Count := Num(1), Charges := Num(Wrap(t.charges, 2))]
      else map[Count := Num(1)];
    if t.defaultDuration == 0 then made else made[Duration := Num(AtLeast(0, Signed(Wrap(t.defaultDuration, 4), 4)))]
  }

  function AtLeast(low: int, n: int): int {
    if n < low then low else n
  }

  // ----- The codes of the attributes -----------------------------------------------------------

  /** How the value behind a code is written. */
  datatype Kind = Word(width: nat, signed: bool) | Line | Table | Skipped(width: nat) | Contents | Unknown

  function KindOf(code: byte): Kind {
    match code
    case 15 => Word(1, false) case 12 => Word(1, false) case 17 => Word(1, false) case 33 => Word(1, false)
    case 36 => Word(1, false) case 32 => Word(1, true)
    case 4 => Word(2, false) case 5 => Word(2, false) case 22 => Word(2, false)
    case 18 => Word(4, false) case 27 => Word(4, false) case 38 => Word(4, false)
    case 16 => Word(4, true) case 28 => Word(4, true) case 29 => Word(4, true) case 30 => Word(4, true)
    case 31 => Word(4, true) case 35 => Word(4, true)
    case 6 => Line case 7 => Line case 19 => Line case 24 => Line case 25 => Line case 26 => Line case 34 => Line
    case 39 => Line
    case 37 => Table
    case 10 => Skipped(2) case 14 => Skipped(1) case 20 => Skipped(4) case 21 => Skipped(4) case 8 => Skipped(5)
    case 23 => Contents
    case _ => Unknown
  }

  /** The field behind a code; what is read behind code 39 goes nowhere. */
  function FieldOf(t: ItemType, code: byte): Option<Field> {
    match code
    case 15 => Some(SubType(t)) case 12 => Some(SubType(t)) case 22 => Some(SubType(t))
    case 4 => Some(ActionId) case 5 => Some(UniqueId) case 18 => Some(Date)
    case 16 => Some(Duration) case 17 => Some(DecayState)
    case 27 => Some(Weight) case 28 => Some(Attack) case 29 => Some(Defense) case 30 => Some(ExtraDefense)
    case 31 => Some(Armor) case 32 => Some(HitChance) case 33 => Some(ShootRange)
    case 35 => Some(ImbuementSlot) case 36 => Some(OpenContainer) case 38 => Some(Quickloot)
    case 6 => Some(Text) case 7 => Some(Description) case 19 => Some(Writer)
    case 24 => Some(Name) case 25 => Some(Article) case 26 => Some(PluralName) case 34 => Some(Special)
    case 37 => Some(Custom)
    case _ => None
  }

  // ----- Values on the wire --------------------------------------------------------------------

  function CustomBytes(v: CustomValue): seq<byte> {
    match v
    case Blank => [0]
    case Str(s) => [1] + StringBytes(s)
    case Int(n) => [2] + Bytes(Wrap(n, 8), 8)
    case Double(bits) => [3] + Bytes(Wrap(bits, 8), 8)
    case Bool(b) => [4] + [if b then 1 else 0]
  }

  function PairsBytes(pairs: seq<(seq<byte>, CustomValue)>): seq<byte> {
    if pairs == [] then [] else StringBytes(pairs[0].0) + CustomBytes(pairs[0].1) + PairsBytes(pairs[1..])
  }

  function ValueBytes(kind: Kind, v: Value): seq<byte> {
    match v
    case Num(n) => if kind.Word? then Bytes(Wrap(n, kind.width), kind.width) else []
    case Chars(s) => StringBytes(s)
    case Pairs(pairs) => Bytes(Wrap(|pairs|, 8), 8) + PairsBytes(pairs)
  }

  function ReadCustom(data: seq<byte>, p: nat): (r: Option<(CustomValue, nat)>)
    requires p <= |data|
    ensures r.Some? ==> p < r.value.1 <= |data|
  {
    if p == |data| then None else
      match data[p]
      case 1 =>
        (match ReadString(data, p + 1)
         case None => None
         case Some(s) => Some((Str(s.0), s.1)))
      case 2 =>
        (match ReadNumber(data, p + 1, 8)
         case None => None
         case Some(n) => Some((Int(Signed(n, 8)), p + 9)))
      case 3 =>
        (match ReadNumber(data, p + 1, 8)
         case None => None
         case Some(n) => Some((Double(n), p + 9)))
      case 4 =>
        if p + 1 == |data| then None else Some((Bool(data[p + 1] != 0), p + 2))
      case _ => None
  }

  function ReadPairs(data: seq<byte>, p: nat, n: nat): (r: Option<(seq<(seq<byte>, CustomValue)>, nat)>)
    requires p <= |data|
    ensures r.Some? ==> p <= r.value.1 <= |data|
    decreases n
  {
    if n == 0 then Some(([], p)) else
      match ReadString(data, p)
      case None => None
      case Some(key) =>
        match ReadCustom(data, key.1)
        case None => None
        case Some(v) =>
          match ReadPairs(data, v.1, n - 1)
          case None => None
          case Some(rest) => Some(([(key.0, v.0)] + rest.0, rest.1))
  }

  function ReadValue(kind: Kind, data: seq<byte>, p: nat): (r: Option<(Value, nat)>)
    requires p <= |data|
    ensures r.Some? ==> p <= r.value.1 <= |data|
  {
    match kind
    case Word(width, signed) =>
      (match ReadNumber(data, p, width)
       case None => None
       case Some(n) => Some((Num(if signed then Signed(n, width) else n), p + width)))
    case Line =>
      (match ReadString(data, p)
       case None => None
       case Some(s) => Some((Chars(s.0), s.1)))
    case Table =>
      (match ReadNumber(data, p, 8)
       case None => None
       case Some(n) =>
         match ReadPairs(data, p + 8, n)
         case None => None
         case Some(pairs) => Some((Pairs(pairs.0), pairs.1)))
    case Skipped(width) => if |data| - p < width then None else Some((Num(0), p + width))
    case Contents => None
    case Unknown => None
  }

  /** What comes back of a value that was written. */
  function Carried(kind: Kind, v: Value): Value {
    match v
    case Num(n) =>
      if !kind.Word? then v
      else Num(if kind.signed then Signed(Wrap(n, kind.width), kind.width) else Wrap(n, kind.width))
    case Chars(s) => Chars(CarriedString(s))
    case Pairs(pairs) => Pairs(CarriedPairs(pairs))
  }

  function CarriedCustom(v: CustomValue): CustomValue {
    if v.Str? then Str(CarriedString(v.s)) else v
  }

  function CarriedPairs(pairs: seq<(seq<byte>, CustomValue)>): (r: seq<(seq<byte>, CustomValue)>)
    ensures |r| == |pairs|
    ensures forall i | 0 <= i < |r| :: r[i] == (CarriedString(pairs[i].0), CarriedCustom(pairs[i].1))
  {
    if pairs == [] then []
    else [(CarriedString(pairs[0].0), CarriedCustom(pairs[0].1))] + CarriedPairs(pairs[1..])
  }

  /** A custom attribute is not blank, and its number is one of 64 bits. */
  predicate Portable(v: CustomValue) {
    match v
    case Blank => false
    case Str(_) => true
    case Int(n) => -Power(8) <= 2 * n < Power(8)
    case Double(bits) => bits < Power(8)
    case Bool(_) => true
  }

  predicate PortablePairs(pairs: seq<(seq<byte>, CustomValue)>) {
    |pairs| < Power(8) && forall i | 0 <= i < |pairs| :: Portable(pairs[i].1)
  }

  lemma {:induction false} ReadWrittenCustom(data: seq<byte>, p: nat, v: CustomValue)
    requires Portable(v) && At(data, p, CustomBytes(v))
    ensures ReadCustom(data, p) == Some((CarriedCustom(v), p + |CustomBytes(v)|))
  {
    hide Power, Bytes, StringBytes, CarriedString, Number, Wrap, Signed, ReadNumber, ReadString, At;
    match v {
      case Str(s) =>
        AtHead(data, p, 1, StringBytes(s));
        ReadWrittenString(data, p + 1, s);
      case Int(n) =>
        AtHead(data, p, 2, Bytes(Wrap(n, 8), 8));
        WrapFits(n, 8);
        ReadWrittenNumber(data, p + 1, Wrap(n, 8), 8);
        SignedOfWrap(n, 8);
      case Double(bits) =>
        AtHead(data, p, 3, Bytes(Wrap(bits, 8), 8));
        WrapFits(bits, 8);
        ReadWrittenNumber(data, p + 1, Wrap(bits, 8), 8);
      case Bool(b) =>
        AtHead(data, p, 4, [if b then 1 else 0]);
        AtHead(data, p + 1, if b then 1 else 0, []);
    }
  }

  lemma {:induction false} ReadOnePair(data: seq<byte>, p: nat, n: nat, key: (seq<byte>, nat), v: (CustomValue, nat),
                                       rest: (seq<(seq<byte>, CustomValue)>, nat))
    requires p <= |data| && key.1 <= |data| && v.1 <= |data|
    requires ReadString(data, p) == Some(key) && ReadCustom(data, key.1) == Some(v)
    requires ReadPairs(data, v.1, n) == Some(rest)
    ensures ReadPairs(data, p, n + 1) == Some(([(key.0, v.0)] + rest.0, rest.1))
  {
    hide ReadString, ReadCustom;
  }

  lemma {:induction false} NoPairs(data: seq<byte>, p: nat)
    requires p <= |data|
    ensures PairsBytes([]) == [] && ReadPairs(data, p, 0) == Some(([], p))
  {
  }

  lemma {:induction false} PairsSplit(data: seq<byte>, p: nat, pairs: seq<(seq<byte>, CustomValue)>)
    requires pairs != [] && At(data, p, PairsBytes(pairs))
    ensures At(data, p, StringBytes(pairs[0].0))
    ensures At(data, p + |StringBytes(pairs[0].0)|, CustomBytes(pairs[0].1))
    ensures At(data, p + |StringBytes(pairs[0].0)| + |CustomBytes(pairs[0].1)|, PairsBytes(pairs[1..]))
    ensures |PairsBytes(pairs)|
         == |StringBytes(pairs[0].0)| + |CustomBytes(pairs[0].1)| + |PairsBytes(pairs[1..])|
  {
    hide At, StringBytes, CustomBytes;
    AtSplit(data, p, StringBytes(pairs[0].0) + CustomBytes(pairs[0].1), PairsBytes(pairs[1..]));
    AtSplit(data, p, StringBytes(pairs[0].0), CustomBytes(pairs[0].1));
  }

  lemma {:induction false} ReadWrittenPairs(data: seq<byte>, p: nat, pairs: seq<(seq<byte>, CustomValue)>)
    requires PortablePairs(pairs)
    requires At(data, p, PairsBytes(pairs))
    ensures ReadPairs(data, p, |pairs|) == Some((CarriedPairs(pairs), p + |PairsBytes(pairs)|))
    decreases pairs
  {
    hide At, Power, ReadString, StringBytes, CustomBytes, ReadCustom, Portable, ReadPairs, PairsBytes,
      CarriedString, CarriedCustom;
    AtFits(data, p, PairsBytes(pairs));
    NoPairs(data, p);
    if pairs != [] {
      var key, v, rest := pairs[0].0, pairs[0].1, pairs[1..];
      var q := p + |StringBytes(key)|;
      var r := q + |CustomBytes(v)|;
      var end := r + |PairsBytes(rest)|;
      PairsSplit(data, p, pairs);
      AtFits(data, r, PairsBytes(rest));
      ReadWrittenString(data, p, key);
      ReadWrittenCustom(data, q, v);
      ReadWrittenPairs(data, r, rest);
      assert |rest| == |pairs| - 1;
      ReadOnePair(data, p, |rest|, (CarriedString(key), q), (CarriedCustom(v), r), (CarriedPairs(rest), end));
      assert end == p + |PairsBytes(pairs)|;
    }
  }

  /** The value has the form that the code calls for. */
  predicate Suits(kind: Kind, v: Value) {
    match v
    case Num(_) => kind.Word?
    case Chars(_) => kind.Line?
    case Pairs(pairs) => kind.Table? && PortablePairs(pairs)
  }

  lemma {:induction false} ReadWrittenValue(data: seq<byte>, p: nat, kind: Kind, v: Value)
    requires Suits(kind, v) && At(data, p, ValueBytes(kind, v))
    ensures ReadValue(kind, data, p) == Some((Carried(kind, v), p + |ValueBytes(kind, v)|))
  {
    hide Power, Bytes, Number, Wrap, Signed, ReadNumber, ReadString, ReadPairs, PairsBytes;
    match v {
      case Num(n) =>
        WrapFits(n, kind.width);
        ReadWrittenNumber(data, p, Wrap(n, kind.width), kind.width);
      case Chars(s) =>
        ReadWrittenString(data, p, s);
      case Pairs(pairs) =>
        AtSplit(data, p, Bytes(Wrap(|pairs|, 8), 8), PairsBytes(pairs));
        WrapFits(|pairs|, 8);
        ReadWrittenNumber(data, p, |pairs|, 8);
        ReadWrittenPairs(data, p + 8, pairs);
    }
  }

  // ----- Reading and writing the attributes ----------------------------------------------------

  const PENDING := 2

  function Lower(s: seq<byte>): (r: seq<byte>)
    ensures |r| == |s|
  {
    if s == [] then [] else [if 65 <= s[0] <= 90 then s[0] + 32 else s[0]] + Lower(s[1..])
  }

  function WithoutKey(pairs: seq<(seq<byte>, CustomValue)>, key: seq<byte>): (r: seq<(seq<byte>, CustomValue)>)
    ensures forall x | x in r :: x in pairs && x.0 != key
  {
    if pairs == [] then []
    else (if pairs[0].0 == key then [] else [pairs[0]]) + WithoutKey(pairs[1..], key)
  }

  /** setCustomAttribute for each pair: keys in lower case, the last value of a key counts. */
  function Merged(before: seq<(seq<byte>, CustomValue)>, pairs: seq<(seq<byte>, CustomValue)>)
    : seq<(seq<byte>, CustomValue)>
    decreases pairs
  {
    if pairs == [] then before
    else Merged(WithoutKey(before, Lower(pairs[0].0)) + [(Lower(pairs[0].0), pairs[0].1)], pairs[1..])
  }

  /** What readAttr makes of a field when it has read `v` behind the code. */
  function Stored(t: ItemType, code: byte, v: Value, before: Option<Value>): Option<Value> {
    match v
    case Num(n) =>
      if code == 15 || code == 12 || code == 22 then Some(Num(if SubType(t) == Count then Wrap(n, 1) else n))
      else if code == 4 then Some(Num(AtLeast(100, n)))
      else if code == 18 then Some(Num(Signed(Wrap(n, 4), 4)))
      else if code == 16 then Some(Num(AtLeast(0, n)))
      else if code == 17 then (if n == 0 then before else Some(Num(PENDING)))
      else Some(v)
    case Chars(s) => if s == [] then before else Some(v)
    case Pairs(pairs) =>
      if pairs == [] then before
      else Some(Pairs(Merged(if before.Some? && before.value.Pairs? then before.value.pairs else [], pairs)))
  }

  function Get(attributes: Attributes, f: Field): Option<Value> {
    if f in attributes then Some(attributes[f]) else None
  }

  function Set(attributes: Attributes, f: Field, v: Option<Value>): Attributes {
    match v
    case None => attributes - {f}
    case Some(w) => attributes[f := w]
  }

  function Applied(t: ItemType, code: byte, v: Value, attributes: Attributes): Attributes {
    match FieldOf(t, code)
    case None => attributes
    case Some(f) => Set(attributes, f, Stored(t, code, v, Get(attributes, f)))
  }

  /** getIntAttr. */
  function IntAttr(attributes: Attributes, f: Field): int {
    if f in attributes && attributes[f].Num? then attributes[f].n else 0
  }

  function Decaying(attributes: Attributes): nat {
    Wrap(IntAttr(attributes, DecayState), 1)
  }

  /** getDuration: a running decay has the time of its end. */
  function Remaining(attributes: Attributes, now: int): int {
    if Decaying(attributes) == 1 || Decaying(attributes) == 3 then
      AtLeast(0, Signed(Wrap(IntAttr(attributes, DurationTimestamp) - now, 4), 4))
    else Signed(Wrap(IntAttr(attributes, Duration), 4), 4)
  }

  /** What serializeAttr writes behind a code, if it writes the code. */
  function Written(t: ItemType, attributes: Attributes, now: int, code: byte): Option<Value> {
    match code
    case 15 => if t.stackable || t.fluid then Some(Num(Wrap(IntAttr(attributes, SubType(t)), 1))) else None
    case 22 => NonZero(Wrap(IntAttr(attributes, Charges), 2))
    case 4 => if t.moveable then NonZero(Wrap(IntAttr(attributes, ActionId), 2)) else None
    case 18 => if IntAttr(attributes, Date) != 0 then Some(Num(IntAttr(attributes, Date))) else None
    case 16 => if Duration in attributes then Some(Num(Remaining(attributes, now))) else None
    case 17 =>
      if Decaying(attributes) == 1 || Decaying(attributes) == PENDING then Some(Num(Decaying(attributes))) else None
    case 6 => NonEmpty(Get(attributes, Text))
    case 19 => NonEmpty(Get(attributes, Writer))
    case 7 => NonEmpty(Get(attributes, Description))
    case 39 => None
    case _ =>
      match FieldOf(t, code)
      case None => None
      case Some(f) => Get(attributes, f)
  }

  function NonEmpty(v: Option<Value>): Option<Value> {
    if v.Some? && v.value.Chars? && v.value.s == [] then None else v
  }

  function NonZero(n: nat): Option<Value> {
    if n != 0 then Some(Num(n)) else None
  }

  /** The codes in the order of serializeAttr. */
  const ORDER: seq<byte> :=
    [15, 22, 4, 6, 18, 19, 7, 16, 17, 24, 25, 26, 27, 28, 29, 30, 35, 36, 31, 32, 33, 34, 37, 38, 39]

  function Piece(t: ItemType, attributes: Attributes, now: int, code: byte): seq<byte> {
    match Written(t, attributes, now, code)
    case None => []
    case Some(v) => [code] + ValueBytes(KindOf(code), v)
  }

  /** What serializeAttr writes from the `i`-th code on. */
  function AttributeBytes(t: ItemType, attributes: Attributes, now: int, i: nat): seq<byte>
    requires i <= |ORDER|
    decreases |ORDER| - i
  {
    if i == |ORDER| then [] else Piece(t, attributes, now, ORDER[i]) + AttributeBytes(t, attributes, now, i + 1)
  }

  /** What is left of the attributes after writing and reading them. */
  function Reloaded(t: ItemType, attributes: Attributes, now: int, i: nat, loaded: Attributes): Attributes
    requires i <= |ORDER|
    decreases |ORDER| - i
  {
    if i == |ORDER| then loaded else
      match Written(t, attributes, now, ORDER[i])
      case None => Reloaded(t, attributes, now, i + 1, loaded)
      case Some(v) =>
        Reloaded(t, attributes, now, i + 1, Applied(t, ORDER[i], Carried(KindOf(ORDER[i]), v), loaded))
  }

  /** How unserializeAttr ends: with an error, at the end mark (or of the data), or at a container's contents. */
  datatype Ending = Failed | Ended(attributes: Attributes, p: nat) | Holds(attributes: Attributes, count: nat, p: nat)

  function LoadedAttributes(t: ItemType, data: seq<byte>, p: nat, attributes: Attributes): (r: Ending)
    requires p <= |data|
    ensures !r.Failed? ==> p <= r.p <= |data|
    ensures r.Holds? ==> p < r.p
    decreases |data| - p
  {
    if p == |data| then Ended(attributes, p)
    else if data[p] == 0 then Ended(attributes, p + 1)
    else if data[p] == 23 then
      (if !t.isContainer then Failed else
         match ReadNumber(data, p + 1, 4)
         case None => Failed
         case Some(n) => Holds(attributes, n, p + 5))
    else
      match ReadValue(KindOf(data[p]), data, p + 1)
      case None => Failed
      case Some(r) => LoadedAttributes(t, data, r.1, Applied(t, data[p], r.0, attributes))
  }

  /** Fields that hold strings, and the one that holds custom attributes. */
  predicate IsChars(f: Field) {
    f in {Text, Writer, Description, Name, Article, PluralName, Special}
  }

  /** Each field holds a value of its form; of custom attributes none is blank. */
  ghost predicate WellTyped(attributes: Attributes) {
    forall f | f in attributes ::
      if IsChars(f) then attributes[f].Chars?
      else if f == Custom then attributes[f].Pairs? && PortablePairs(attributes[f].pairs)
      else attributes[f].Num?
  }

  lemma {:induction false} WrittenSuits(t: ItemType, attributes: Attributes, now: int, code: byte)
    requires WellTyped(attributes)
    ensures match Written(t, attributes, now, code)
            case None => true
            case Some(v) => Suits(KindOf(code), v) && code != 0 && code != 23
  {
    hide PortablePairs, Remaining, Decaying, Wrap;
  }

  lemma {:induction false} OneCode(t: ItemType, attributes: Attributes, now: int, i: nat, loaded: Attributes)
    requires i <= |ORDER|
    ensures i == |ORDER| ==>
              AttributeBytes(t, attributes, now, i) == [] && Reloaded(t, attributes, now, i, loaded) == loaded
    ensures i < |ORDER| ==>
              && AttributeBytes(t, attributes, now, i)
                 == Piece(t, attributes, now, ORDER[i]) + AttributeBytes(t, attributes, now, i + 1)
              && Reloaded(t, attributes, now, i, loaded)
                 == match Written(t, attributes, now, ORDER[i])
                    case None => Reloaded(t, attributes, now, i + 1, loaded)
                    case Some(v) =>
                      var next := Applied(t, ORDER[i], Carried(KindOf(ORDER[i]), v), loaded);
                      Reloaded(t, attributes, now, i + 1, next)
  {
    hide ORDER, Applied, Written, Carried, KindOf, Piece;
  }

  /** Reading what was written from the `i`-th code on goes on behind it, with the attributes reloaded. */
  lemma {:induction false} AttributesComeBack(
      t: ItemType, attributes: Attributes, now: int, i: nat, data: seq<byte>, p: nat, loaded: Attributes)
    requires WellTyped(attributes) && i <= |ORDER| && At(data, p, AttributeBytes(t, attributes, now, i))
    ensures LoadedAttributes(t, data, p, loaded)
         == LoadedAttributes(t, data, p + |AttributeBytes(t, attributes, now, i)|,
                             Reloaded(t, attributes, now, i, loaded))
    decreases |ORDER| - i
  {
    hide ORDER, At, KindOf, ValueBytes, Carried, Applied, Written, LoadedAttributes, WellTyped, AttributeBytes,
      Reloaded;
    OneCode(t, attributes, now, i, loaded);
    AtFits(data, p, AttributeBytes(t, attributes, now, i));
    if i < |ORDER| {
      var code := ORDER[i];
      var piece, rest := Piece(t, attributes, now, code), AttributeBytes(t, attributes, now, i + 1);
      AtSplit(data, p, piece, rest);
      match Written(t, attributes, now, code) {
        case None =>
          AttributesComeBack(t, attributes, now, i + 1, data, p, loaded);
        case Some(v) =>
          OneComesBack(t, attributes, now, code, v, data, p, loaded);
          AttributesComeBack(t, attributes, now, i + 1, data, p + |piece|,
                             Applied(t, code, Carried(KindOf(code), v), loaded));
      }
    }
  }

  lemma {:induction false} OneComesBack(t: ItemType, attributes: Attributes, now: int, code: byte, v: Value,
      data: seq<byte>, p: nat, loaded: Attributes)
    requires WellTyped(attributes) && Written(t, attributes, now, code) == Some(v)
    requires At(data, p, [code] + ValueBytes(KindOf(code), v))
    ensures p + 1 + |ValueBytes(KindOf(code), v)| <= |data|
    ensures LoadedAttributes(t, data, p, loaded)
         == LoadedAttributes(t, data, p + 1 + |ValueBytes(KindOf(code), v)|,
                           Applied(t, code, Carried(KindOf(code), v), loaded))
  {
    hide ReadNumber, At, KindOf, ValueBytes, ReadValue, Carried, Suits, Applied, Written, WellTyped;
    WrittenSuits(t, attributes, now, code);
    AtHead(data, p, code, ValueBytes(KindOf(code), v));
    ReadWrittenValue(data, p + 1, KindOf(code), v);
  }

  // ----- Items and what they hold --------------------------------------------------------------

  const NO_TYPE := ItemType(false, false, false, 0, 0, false)

  function TypeOf(catalog: Catalog, id: nat): ItemType {
    if id in catalog then catalog[id] else NO_TYPE
  }

  function Saved(catalog: Catalog, item: Item, now: int): seq<byte>
    decreases item
  {
    var t := TypeOf(catalog, item.id);
    Bytes(Wrap(item.id, 2), 2) + (AttributeBytes(t, item.attributes, now, 0)
    + ((if t.isContainer then [23] + (Bytes(Wrap(|item.items|, 4), 4) + SavedAll(catalog, item.items, now)) else [])
    + [0]))
  }

  /** The contents of a container, from the last to the first. */
  function SavedAll(catalog: Catalog, items: seq<Item>, now: int): seq<byte>
    decreases items
  {
    if items == [] then []
    else Saved(catalog, items[|items| - 1], now) + SavedAll(catalog, items[..|items| - 1], now)
  }

  /** The item at `p`, in a list of one, or of none if the id makes no item; and where reading went on to. */
  function Loaded(catalog: Catalog, data: seq<byte>, p: nat): (r: Option<(seq<Item>, nat)>)
    requires p <= |data|
    ensures r.Some? ==> p < r.value.1 <= |data|
    decreases |data| - p, 0
  {
    match ReadNumber(data, p, 2)
    case None => None
    case Some(id) =>
      if id !in catalog then Some(([], p + 2)) else
        var t := catalog[id];
        match LoadedAttributes(t, data, p + 2, Fresh(t))
        case Failed => None
        case Ended(attributes, q) =>
          if !t.isContainer then Some(([Item(id, attributes, [])], q))
          else if q < |data| && data[q] == 0 then Some(([Item(id, attributes, [])], q + 1))
          else None
        case Holds(attributes, count, q) =>
          match LoadedAll(catalog, data, q, count)
          case None => None
          case Some(r) =>
            if r.1 < |data| && data[r.1] == 0 then Some(([Item(id, attributes, r.0)], r.1 + 1)) else None
  }

  /** The next `count` items, each put in front of those before it. */
  function LoadedAll(catalog: Catalog, data: seq<byte>, p: nat, count: nat): (r: Option<(seq<Item>, nat)>)
    requires p <= |data|
    ensures r.Some? ==> p <= r.value.1 <= |data|
    decreases |data| - p, 1
  {
    if count == 0 then Some(([], p)) else
      match Loaded(catalog, data, p)
      case None => None
      case Some(first) =>
        match LoadedAll(catalog, data, first.1, count - 1)
        case None => None
        case Some(rest) => Some((rest.0 + first.0, rest.1))
  }

  /** Nothing in the item is too long for the stream, and its types are known. */
  ghost predicate Sound(catalog: Catalog, item: Item)
    decreases item
  {
    && item.id in catalog && item.id < 0x1_0000
    && WellTyped(item.attributes)
    && |item.items| < 0x1_0000_0000
    && (!catalog[item.id].isContainer ==> item.items == [])
    && forall i | 0 <= i < |item.items| :: Sound(catalog, item.items[i])
  }

  /** The item with all attributes, its own and those of what it holds, as they come back. */
  function ReloadedItem(catalog: Catalog, item: Item, now: int): Item
    decreases item
  {
    var t := TypeOf(catalog, item.id);
    Item(item.id, Reloaded(t, item.attributes, now, 0, Fresh(t)), ReloadedItems(catalog, item.items, now))
  }

  function ReloadedItems(catalog: Catalog, items: seq<Item>, now: int): (r: seq<Item>)
    ensures |r| == |items|
    decreases items
  {
    if items == [] then []
    else ReloadedItems(catalog, items[..|items| - 1], now) + [ReloadedItem(catalog, items[|items| - 1], now)]
  }

  /**
   What saveItem wrote, loadItem reads: the same item with the same contents in the same order, its attributes
   reloaded, and exactly the bytes that were written are consumed, whatever follows them.
   */
  lemma {:induction false} LoadUndoesSave(catalog: Catalog, item: Item, now: int, data: seq<byte>, p: nat)
    requires Sound(catalog, item) && At(data, p, Saved(catalog, item, now))
    ensures Loaded(catalog, data, p)
         == Some(([ReloadedItem(catalog, item, now)], p + |Saved(catalog, item, now)|))
    decreases item, 0
  {
    hide Bytes, Wrap, ReadNumber, At, Fresh, KindOf, ReadValue, Applied, AttributeBytes, Reloaded, WellTyped,
      SavedAll, Loaded, LoadedAll, ReloadedItems;
    var t := catalog[item.id];
    assert TypeOf(catalog, item.id) == t;
    var id, body := Bytes(Wrap(item.id, 2), 2), AttributeBytes(t, item.attributes, now, 0);
    var contents := Bytes(Wrap(|item.items|, 4), 4) + SavedAll(catalog, item.items, now);
    var tail := if t.isContainer then [23] + contents else [];
    assert Saved(catalog, item, now) == id + (body + (tail + [0]));
    assert Power(2) == 0x1_0000;
    WrapFits(item.id, 2);
    AtSplit(data, p, id, body + (tail + [0]));
    ReadWrittenNumber(data, p, item.id, 2);
    AtSplit(data, p + 2, body, tail + [0]);
    AttributesComeBack(t, item.attributes, now, 0, data, p + 2, Fresh(t));
    var q, attributes := p + 2 + |body|, Reloaded(t, item.attributes, now, 0, Fresh(t));
    assert ReloadedItem(catalog, item, now) == Item(item.id, attributes, ReloadedItems(catalog, item.items, now));
    AtSplit(data, q, tail, [0]);
    AtHead(data, q + |tail|, 0, []);
    if t.isContainer {
      ContentsComeBack(catalog, t, item.items, attributes, now, data, q);
    } else {
      assert LoadedAttributes(t, data, q, attributes) == Ended(attributes, q + 1);
      assert ReloadedItems(catalog, item.items, now) == [];
    }
    var end := q + |tail| + 1;
    assert end == p + |Saved(catalog, item, now)|;
    LoadedOne(catalog, data, p, item.id, attributes, ReloadedItems(catalog, item.items, now), q, end - 1);
  }

  /** One item, once its attributes and its contents are read. */
  lemma {:induction false} LoadedOne(catalog: Catalog, data: seq<byte>, p: nat, id: nat, attributes: Attributes,
      items: seq<Item>, q: nat, end: nat)
    requires p <= |data| && id in catalog && ReadNumber(data, p, 2) == Some(id)
    requires p + 2 <= q <= end < |data| && data[end] == 0
    requires LoadedAttributes(catalog[id], data, p + 2, Fresh(catalog[id]))
          == LoadedAttributes(catalog[id], data, q, attributes)
    requires if catalog[id].isContainer then
               && q + 5 <= |data|
               && LoadedAttributes(catalog[id], data, q, attributes) == Holds(attributes, |items|, q + 5)
               && LoadedAll(catalog, data, q + 5, |items|) == Some((items, end))
             else
               items == [] && q == end && LoadedAttributes(catalog[id], data, q, attributes) == Ended(attributes, q + 1)
    ensures Loaded(catalog, data, p) == Some(([Item(id, attributes, items)], end + 1))
  {
    hide ReadNumber, LoadedAttributes, LoadedAll, Fresh;
  }

  /** The part of a container from code 23 to before the end mark. */
  lemma {:induction false} ContentsComeBack(
      catalog: Catalog, t: ItemType, items: seq<Item>, attributes: Attributes, now: int, data: seq<byte>, q: nat)
    requires t.isContainer && |items| < 0x1_0000_0000 && forall i | 0 <= i < |items| :: Sound(catalog, items[i])
    requires At(data, q, [23] + (Bytes(Wrap(|items|, 4), 4) + SavedAll(catalog, items, now)))
    ensures q + 5 + |SavedAll(catalog, items, now)| <= |data|
    ensures LoadedAttributes(t, data, q, attributes) == Holds(attributes, |items|, q + 5)
    ensures LoadedAll(catalog, data, q + 5, |items|)
         == Some((ReloadedItems(catalog, items, now), q + 5 + |SavedAll(catalog, items, now)|))
    decreases items, 1
  {
    hide Bytes, Wrap, ReadNumber, KindOf, ReadValue, Applied, SavedAll, LoadedAll, Sound, ReloadedItems;
    assert Power(4) == 0x1_0000_0000;
    WrapFits(|items|, 4);
    var count, all := Bytes(Wrap(|items|, 4), 4), SavedAll(catalog, items, now);
    AtHead(data, q, 23, count + all);
    AtSplit(data, q + 1, count, all);
    ReadWrittenNumber(data, q + 1, |items|, 4);
    assert q + 5 + |all| <= |data|;
    LoadUndoesSaveAll(catalog, items, now, data, q + 5);
  }

  lemma {:induction false} LoadUndoesSaveAll(catalog: Catalog, items: seq<Item>, now: int, data: seq<byte>, p: nat)
    requires (forall i | 0 <= i < |items| :: Sound(catalog, items[i])) && At(data, p, SavedAll(catalog, items, now))
    ensures LoadedAll(catalog, data, p, |items|)
         == Some((ReloadedItems(catalog, items, now), p + |SavedAll(catalog, items, now)|))
    decreases items, 0
  {
    hide Sound, Saved, Loaded, ReloadedItem;
    assert p <= |data|;
    if items != [] {
      var init, last := items[..|items| - 1], items[|items| - 1];
      AtSplit(data, p, Saved(catalog, last, now), SavedAll(catalog, init, now));
      LoadUndoesSave(catalog, last, now, data, p);
      LoadUndoesSaveAll(catalog, init, now, data, p + |Saved(catalog, last, now)|);
    }
  }

  // ----- Which items come back unchanged -------------------------------------------------------

  /** One field, through the same steps as `Reloaded`. */
  function Step(t: ItemType, attributes: Attributes, now: int, code: byte, f: Field, v: Option<Value>): Option<Value> {
    match Written(t, attributes, now, code)
    case None => v
    case Some(w) => if FieldOf(t, code) == Some(f) then Stored(t, code, Carried(KindOf(code), w), v) else v
  }

  function Fold(t: ItemType, attributes: Attributes, now: int, i: nat, f: Field, v: Option<Value>): Option<Value>
    requires i <= |ORDER|
    decreases |ORDER| - i
  {
    if i == |ORDER| then v else Fold(t, attributes, now, i + 1, f, Step(t, attributes, now, ORDER[i], f, v))
  }

  lemma {:induction false} AppliedByField(t: ItemType, code: byte, v: Value, loaded: Attributes, f: Field)
    ensures Get(Applied(t, code, v, loaded), f)
         == if FieldOf(t, code) == Some(f) then Stored(t, code, v, Get(loaded, f)) else Get(loaded, f)
  {
    hide FieldOf, Stored;
  }

  lemma {:induction false} ReloadedByField(
      t: ItemType, attributes: Attributes, now: int, i: nat, loaded: Attributes, f: Field)
    requires i <= |ORDER|
    ensures Get(Reloaded(t, attributes, now, i, loaded), f) == Fold(t, attributes, now, i, f, Get(loaded, f))
    decreases |ORDER| - i
  {
    hide KindOf, FieldOf, Carried, Stored, Get, Applied, Written;
    if i == |ORDER| {
    } else {
      var code, before := ORDER[i], Get(loaded, f);
      var w := Written(t, attributes, now, code);
      var next := if w.None? then loaded else Applied(t, code, Carried(KindOf(code), w.value), loaded);
      assert Reloaded(t, attributes, now, i, loaded) == Reloaded(t, attributes, now, i + 1, next);
      if w.Some? {
        AppliedByField(t, code, Carried(KindOf(code), w.value), loaded, f);
      }
      assert Get(next, f) == Step(t, attributes, now, code, f, before);
      assert Fold(t, attributes, now, i, f, before) == Fold(t, attributes, now, i + 1, f, Get(next, f));
      ReloadedByField(t, attributes, now, i + 1, next, f);
    }
  }

  lemma {:induction false} FoldSkips(
      t: ItemType, attributes: Attributes, now: int, i: nat, j: nat, f: Field, v: Option<Value>)
    requires i <= j <= |ORDER| && forall k | i <= k < j :: FieldOf(t, ORDER[k]) != Some(f)
    ensures Fold(t, attributes, now, i, f, v) == Fold(t, attributes, now, j, f, v)
    decreases j - i
  {
    hide Written, Stored, Carried, KindOf, FieldOf;
    if i < j {
      FoldSkips(t, attributes, now, i + 1, j, f, v);
    }
  }

  /** The only code whose reading sets a field, other than the sub type's, that serializeAttr can write. */
  function CodeOf(f: Field): Option<byte> {
    match f
    case ActionId => Some(4) case Text => Some(6) case Date => Some(18) case Writer => Some(19)
    case Description => Some(7) case Duration => Some(16) case DecayState => Some(17) case Name => Some(24)
    case Article => Some(25) case PluralName => Some(26) case Weight => Some(27) case Attack => Some(28)
    case Defense => Some(29) case ExtraDefense => Some(30) case ImbuementSlot => Some(35)
    case OpenContainer => Some(36) case Armor => Some(31) case HitChance => Some(32) case ShootRange => Some(33)
    case Special => Some(34) case Custom => Some(37) case Quickloot => Some(38)
    case _ => None
  }

  function Position(code: byte): nat {
    match code
    case 15 => 0 case 22 => 1 case 4 => 2 case 6 => 3 case 18 => 4 case 19 => 5 case 7 => 6 case 16 => 7
    case 17 => 8 case 24 => 9 case 25 => 10 case 26 => 11 case 27 => 12 case 28 => 13 case 29 => 14 case 30 => 15
    case 35 => 16 case 36 => 17 case 31 => 18 case 32 => 19 case 33 => 20 case 34 => 21 case 37 => 22 case 38 => 23
    case _ => 24
  }

  lemma {:induction false} PositionInOrder(k: nat)
    requires k < |ORDER|
    ensures Position(ORDER[k]) == k
    ensures ORDER[k] != 5 && ORDER[k] != 12
  {
  }

  lemma {:induction false} CodeInOrder(f: Field)
    requires CodeOf(f).Some?
    ensures Position(CodeOf(f).value) < |ORDER| && ORDER[Position(CodeOf(f).value)] == CodeOf(f).value
  {
  }

  /** What comes back in a field. */
  function Back(t: ItemType, attributes: Attributes, now: int, f: Field): Option<Value> {
    var initial := Get(Fresh(t), f);
    if f == SubType(t) then
      Step(t, attributes, now, 22, f, Step(t, attributes, now, 15, f, initial))
    else
      match CodeOf(f)
      case None => initial
      case Some(code) => Step(t, attributes, now, code, f, initial)
  }

  lemma {:induction false} SetByOneCode(t: ItemType, f: Field, code: byte)
    requires FieldOf(t, code) == Some(f) && code != 5 && code != 12
    ensures if f == SubType(t) then code == 15 || code == 22 else CodeOf(f) == Some(code)
  {
  }

  lemma {:induction false} BackIsReloaded(t: ItemType, attributes: Attributes, now: int, f: Field)
    ensures Get(Reloaded(t, attributes, now, 0, Fresh(t)), f) == Back(t, attributes, now, f)
  {
    hide Step, FieldOf, CodeOf, Fresh, SubType, Reloaded;
    ReloadedByField(t, attributes, now, 0, Fresh(t), f);
    var v := Get(Fresh(t), f);
    forall k | 0 <= k < |ORDER| && FieldOf(t, ORDER[k]) == Some(f)
      ensures if f == SubType(t) then k <= 1 else CodeOf(f) == Some(ORDER[k])
    {
      PositionInOrder(k);
      SetByOneCode(t, f, ORDER[k]);
    }
    if f == SubType(t) {
      FoldSkips(t, attributes, now, 2, |ORDER|, f, Step(t, attributes, now, 22, f, Step(t, attributes, now, 15, f, v)));
    } else if CodeOf(f).None? {
      FoldSkips(t, attributes, now, 0, |ORDER|, f, v);
    } else {
      var code := CodeOf(f).value;
      var k := Position(code);
      CodeInOrder(f);
      forall j | 0 <= j < |ORDER| && j != k
        ensures FieldOf(t, ORDER[j]) != Some(f)
      {
        PositionInOrder(j);
      }
      FoldSkips(t, attributes, now, 0, k, f, v);
      FoldSkips(t, attributes, now, k + 1, |ORDER|, f, Step(t, attributes, now, code, f, v));
    }
  }

  /** What a field should come back with: a running decay is pending again, with the time that is left to it. */
  function Kept(attributes: Attributes, now: int, f: Field): Option<Value> {
    match f
    case DurationTimestamp => None
    case Duration =>
      if f in attributes && Running(attributes) then Some(Num(Remaining(attributes, now))) else Get(attributes, f)
    case DecayState =>
      if Decaying(attributes) == 1 then Some(Num(PENDING))
      else if IntAttr(attributes, f) == 0 then None
      else Get(attributes, f)
    case _ => Get(attributes, f)
  }

  function Restored(attributes: Attributes, now: int): Attributes {
    map f: Field | Kept(attributes, now, f).Some? :: Kept(attributes, now, f).value
  }

  predicate Running(attributes: Attributes) {
    Decaying(attributes) == 1 || Decaying(attributes) == 3
  }

  predicate InRange(n: int, width: nat) {
    0 <= n < Power(width)
  }

  predicate InSignedRange(n: int, width: nat) {
    -Power(width) <= 2 * n < Power(width)
  }

  /** The charges that serializeAttr finds; it writes them for every type, and they are read back as the sub type. */
  function WrittenCharges(attributes: Attributes): nat {
    Wrap(IntAttr(attributes, Charges), 2)
  }

  /** What the field must be like for it to come back, in terms of what is in it and in the type. */
  ghost predicate Storable(t: ItemType, attributes: Attributes, f: Field) {
    var n, charges := IntAttr(attributes, f), WrittenCharges(attributes);
    match f
    case Count =>
      f in attributes
      && if SubType(t) != Count then n == 1
         else if charges != 0 then n == Wrap(charges, 1)
         else if t.stackable then InRange(n, 1)
         else n == 1
    case FluidType =>
      if !t.fluid then f !in attributes
      else f in attributes && if charges != 0 then n == charges else InRange(n, 1)
    case Charges =>
      if SubType(t) != Charges then f !in attributes
      else f in attributes && n == if charges != 0 then charges else Wrap(t.charges, 2)
    case ActionId => f !in attributes || (t.moveable && 100 <= n < 0x1_0000)
    case UniqueId => f !in attributes
    case Owner => f !in attributes
    case CorpseOwner => f !in attributes
    case DoorId => f !in attributes
    case DurationTimestamp => true
    case Date => f !in attributes || (n != 0 && InSignedRange(n, 4))
    case Duration =>
      if f !in attributes then t.defaultDuration == 0
      else Running(attributes) || (n >= 0 && InSignedRange(n, 4))
    case DecayState => Decaying(attributes) == 1 || n == 0 || n == PENDING
    case Weight => f !in attributes || InRange(n, 4)
    case Quickloot => f !in attributes || InRange(n, 4)
    case OpenContainer => f !in attributes || InRange(n, 1)
    case ShootRange => f !in attributes || InRange(n, 1)
    case HitChance => f !in attributes || InSignedRange(n, 1)
    case Attack => f !in attributes || InSignedRange(n, 4)
    case Defense => f !in attributes || InSignedRange(n, 4)
    case ExtraDefense => f !in attributes || InSignedRange(n, 4)
    case ImbuementSlot => f !in attributes || InSignedRange(n, 4)
    case Armor => f !in attributes || InSignedRange(n, 4)
    case Custom =>
      f !in attributes
      || (attributes[f].Pairs? && attributes[f].pairs != [] && Tidy(attributes[f].pairs) && Short(attributes[f].pairs))
    case _ => f !in attributes || (attributes[f].Chars? && 1 <= |attributes[f].s| <= MAX_STRING)
  }

  /** Keys in lower case, each of them once. */
  ghost predicate Tidy(pairs: seq<(seq<byte>, CustomValue)>) {
    && (forall i | 0 <= i < |pairs| :: Lower(pairs[i].0) == pairs[i].0)
    && forall i, j | 0 <= i < j < |pairs| :: pairs[i].0 != pairs[j].0
  }

  /** No string is too long for its length field. */
  predicate Short(pairs: seq<(seq<byte>, CustomValue)>) {
    forall i | 0 <= i < |pairs| :: |pairs[i].0| <= MAX_STRING && (pairs[i].1.Str? ==> |pairs[i].1.s| <= MAX_STRING)
  }

  lemma {:induction false} SignedFits(m: nat, width: nat)
    requires width > 0 && m < Power(width)
    ensures InSignedRange(Signed(m, width), width)
  {
    assert Power(width) == 2 * (128 * Power(width - 1));
  }

  /** A word carries a number if and only if it has room for it. */
  lemma {:induction false} CarriedIffInRange(n: int, width: nat, signed: bool)
    requires width > 0
    ensures var w := Wrap(n, width);
            if signed then Signed(w, width) == n <==> InSignedRange(n, width) else w == n <==> InRange(n, width)
  {
    WrapFits(n, width);
    SignedFits(Wrap(n, width), width);
    hide Power;
    if signed && InSignedRange(n, width) {
      SignedOfWrap(n, width);
    }
  }

  predicate IsPlain(f: Field) {
    f in {Weight, Attack, Defense, ExtraDefense, ImbuementSlot, OpenContainer, Armor, HitChance, ShootRange, Quickloot}
  }

  /** A field with one code, written as it is, comes back as the code carries it. */
  lemma {:induction false} PlainComesBack(t: ItemType, attributes: Attributes, now: int, f: Field)
    requires IsPlain(f) || f in {Name, Article, PluralName, Special, Custom}
    ensures CodeOf(f).Some?
    ensures var code := CodeOf(f).value;
            Back(t, attributes, now, f)
            == if f in attributes then Stored(t, code, Carried(KindOf(code), attributes[f]), None) else None
  {
    hide Wrap, Signed, AtLeast, KindOf, Carried, Stored, IntAttr, Decaying, Remaining, NonEmpty, NonZero;
    var code := CodeOf(f).value;
    assert f != SubType(t);
    assert FieldOf(t, code) == Some(f);
    assert Written(t, attributes, now, code) == Get(attributes, f);
    assert Get(Fresh(t), f) == None;
  }

  lemma {:induction false} PlainStorableIff(t: ItemType, attributes: Attributes, now: int, f: Field)
    requires WellTyped(attributes) && IsPlain(f)
    ensures Back(t, attributes, now, f) == Kept(attributes, now, f) <==> Storable(t, attributes, f)
  {
    hide Wrap, Signed, SubType, AtLeast, PortablePairs, Merged, Decaying, Remaining, Back, Running, InRange,
      InSignedRange, WrittenCharges, Tidy;
    PlainComesBack(t, attributes, now, f);
    var kind := KindOf(CodeOf(f).value);
    assert kind.Word?;
    CarriedIffInRange(IntAttr(attributes, f), kind.width, kind.signed);
    if f in attributes {
      assert attributes[f] == Num(IntAttr(attributes, f));
    }
  }

  /** A string comes back unless it is empty or too long. */
  lemma {:induction false} CharsComeBack(t: ItemType, attributes: Attributes, now: int, f: Field)
    requires WellTyped(attributes) && IsChars(f)
    ensures Back(t, attributes, now, f)
         == if f in attributes && 1 <= |attributes[f].s| <= MAX_STRING then Some(attributes[f]) else None
  {
    hide Wrap, Signed, AtLeast, KindOf, PortablePairs, Merged, IntAttr, Decaying, Remaining, NonZero;
    var code := CodeOf(f).value;
    assert f != SubType(t);
    assert FieldOf(t, code) == Some(f);
    assert f in attributes ==> attributes[f].Chars?;
    assert Written(t, attributes, now, code) == Get(attributes, f)
        || (f in attributes && attributes[f].s == [] && Written(t, attributes, now, code) == None);
    assert Get(Fresh(t), f) == None;
  }

  lemma {:induction false} CharsStorableIff(t: ItemType, attributes: Attributes, now: int, f: Field)
    requires WellTyped(attributes) && IsChars(f)
    ensures Back(t, attributes, now, f) == Kept(attributes, now, f) <==> Storable(t, attributes, f)
  {
    hide Wrap, SubType, PortablePairs, IntAttr, Decaying, Remaining, Back, Running, InRange, InSignedRange,
      WrittenCharges, Tidy;
    CharsComeBack(t, attributes, now, f);
    assert f in attributes ==> attributes[f].Chars?;
  }

  lemma {:induction false} SubTypeStorableIff(t: ItemType, attributes: Attributes, now: int, f: Field)
    requires WellTyped(attributes) && f in {Count, FluidType, Charges}
    ensures Back(t, attributes, now, f) == Kept(attributes, now, f) <==> Storable(t, attributes, f)
  {
    hide Power, Wrap, Signed, Decaying, Remaining, PortablePairs;
    var n, charges := IntAttr(attributes, f), WrittenCharges(attributes);
    WrapFits(n, 1);
    WrapFits(Wrap(n, 1), 1);
    WrapFits(charges, 2);
    WrapFits(IntAttr(attributes, Charges), 2);
    WrapFits(IntAttr(attributes, SubType(t)), 1);
    WrapFits(Wrap(IntAttr(attributes, SubType(t)), 1), 1);
  }

  lemma {:induction false} OtherStorableIff(t: ItemType, attributes: Attributes, now: int, f: Field)
    requires WellTyped(attributes) && f in {ActionId, UniqueId, Owner, CorpseOwner, DoorId, Date, DurationTimestamp}
    ensures Back(t, attributes, now, f) == Kept(attributes, now, f) <==> Storable(t, attributes, f)
  {
    hide Wrap, Signed, Decaying, Remaining, PortablePairs;
    var n := IntAttr(attributes, f);
    assert Power(2) == 0x1_0000;
    WrapFits(n, 2);
    WrapFits(Wrap(n, 2), 2);
    WrapFits(n, 4);
    WrapFits(Wrap(n, 4), 4);
    CarriedIffInRange(n, 4, true);
  }

  lemma {:induction false} DurationStorableIff(t: ItemType, attributes: Attributes, now: int)
    requires WellTyped(attributes)
    ensures Back(t, attributes, now, Duration) == Kept(attributes, now, Duration) <==> Storable(t, attributes, Duration)
  {
    hide Wrap, Signed, Decaying, PortablePairs;
    var n := IntAttr(attributes, Duration);
    assert Power(4) == 0x1_0000_0000;
    RemainingFits(attributes, now);
    CarriedIffInRange(Remaining(attributes, now), 4, true);
    CarriedIffInRange(n, 4, true);
  }

  /** A duration is read off a 32-bit word, and one that runs is never negative. */
  lemma {:induction false} RemainingFits(attributes: Attributes, now: int)
    ensures InSignedRange(Remaining(attributes, now), 4)
    ensures Running(attributes) ==> Remaining(attributes, now) >= 0
  {
    hide Power;
    var left := IntAttr(attributes, DurationTimestamp) - now;
    WrapFits(left, 4);
    SignedFits(Wrap(left, 4), 4);
    WrapFits(IntAttr(attributes, Duration), 4);
    SignedFits(Wrap(IntAttr(attributes, Duration), 4), 4);
  }

  lemma {:induction false} DecayStateStorableIff(t: ItemType, attributes: Attributes, now: int)
    requires WellTyped(attributes)
    ensures Back(t, attributes, now, DecayState) == Kept(attributes, now, DecayState)
       <==> Storable(t, attributes, DecayState)
  {
    hide Wrap, Signed, Remaining, PortablePairs;
    assert Power(1) == 256;
    WrapFits(IntAttr(attributes, DecayState), 1);
    WrapFits(Decaying(attributes), 1);
  }

  lemma {:induction false} LowerTwice(s: seq<byte>)
    ensures Lower(Lower(s)) == Lower(s)
    decreases s
  {
    if s != [] {
      LowerTwice(s[1..]);
      assert Lower(s)[1..] == Lower(s[1..]);
    }
  }

  lemma {:induction false} TidyCons(head: (seq<byte>, CustomValue), rest: seq<(seq<byte>, CustomValue)>)
    ensures Tidy([head] + rest)
       <==> Lower(head.0) == head.0 && (forall x | x in rest :: x.0 != head.0) && Tidy(rest)
  {
    hide Lower;
    var all := [head] + rest;
    assert all[0] == head && forall i | 0 < i < |all| :: all[i] == rest[i - 1];
    if Tidy(all) {
      forall x | x in rest
        ensures x.0 != head.0
      {
        var i :| 0 <= i < |rest| && rest[i] == x;
        assert all[i + 1] == x;
      }
      assert forall i | 0 <= i < |rest| :: rest[i] == all[i + 1];
    }
  }

  lemma {:induction false} WithoutStaysTidy(pairs: seq<(seq<byte>, CustomValue)>, key: seq<byte>)
    requires Tidy(pairs)
    ensures Tidy(WithoutKey(pairs, key))
    decreases pairs
  {
    if pairs != [] {
      hide Lower, Tidy;
      assert pairs == [pairs[0]] + pairs[1..];
      TidyCons(pairs[0], pairs[1..]);
      WithoutStaysTidy(pairs[1..], key);
      TidyCons(pairs[0], WithoutKey(pairs[1..], key));
    }
  }

  lemma {:induction false} WithoutAbsentKey(pairs: seq<(seq<byte>, CustomValue)>, key: seq<byte>)
    requires forall i | 0 <= i < |pairs| :: pairs[i].0 != key
    ensures WithoutKey(pairs, key) == pairs
    decreases pairs
  {
    if pairs != [] {
      WithoutAbsentKey(pairs[1..], key);
    }
  }

  lemma {:induction false} MergedIsTidy(before: seq<(seq<byte>, CustomValue)>, pairs: seq<(seq<byte>, CustomValue)>)
    requires Tidy(before)
    ensures Tidy(Merged(before, pairs))
    decreases pairs
  {
    if pairs != [] {
      var key := Lower(pairs[0].0);
      LowerTwice(pairs[0].0);
      WithoutStaysTidy(before, key);
      var r := WithoutKey(before, key);
      var next := r + [(key, pairs[0].1)];
      assert forall i | 0 <= i < |r| :: next[i] == r[i] && r[i] in r;
      assert Tidy(next);
      MergedIsTidy(next, pairs[1..]);
    }
  }

  lemma {:induction false} TidyAt(before: seq<(seq<byte>, CustomValue)>, pairs: seq<(seq<byte>, CustomValue)>)
    requires Tidy(before + pairs) && pairs != []
    ensures Lower(pairs[0].0) == pairs[0].0
    ensures forall i | 0 <= i < |before| :: before[i].0 != pairs[0].0
  {
    hide Lower;
    var all := before + pairs;
    assert all[|before|] == pairs[0] && forall i | 0 <= i < |before| :: all[i] == before[i];
  }

  lemma {:induction false} TidyMerges(before: seq<(seq<byte>, CustomValue)>, pairs: seq<(seq<byte>, CustomValue)>)
    requires Tidy(before + pairs)
    ensures Merged(before, pairs) == before + pairs
    decreases pairs
  {
    hide Tidy, Lower, WithoutKey;
    if pairs != [] {
      TidyAt(before, pairs);
      WithoutAbsentKey(before, pairs[0].0);
      assert before + [pairs[0]] + pairs[1..] == before + pairs;
      TidyMerges(before + [pairs[0]], pairs[1..]);
    } else {
      assert before + pairs == before;
    }
  }

  lemma {:induction false} MergedIsShort(before: seq<(seq<byte>, CustomValue)>, pairs: seq<(seq<byte>, CustomValue)>)
    requires Short(before) && Short(pairs)
    ensures Short(Merged(before, pairs))
    decreases pairs
  {
    if pairs != [] {
      var r := WithoutKey(before, Lower(pairs[0].0));
      var next := r + [(Lower(pairs[0].0), pairs[0].1)];
      assert forall i | 0 <= i < |r| :: r[i] in r && next[i] == r[i];
      assert next[|r|].1 == pairs[0].1;
      MergedIsShort(next, pairs[1..]);
    }
  }

  lemma {:induction false} ShortIsCarried(pairs: seq<(seq<byte>, CustomValue)>)
    ensures Short(CarriedPairs(pairs))
    ensures Short(pairs) ==> CarriedPairs(pairs) == pairs
  {
    if Short(pairs) {
      assert forall i | 0 <= i < |pairs| :: CarriedPairs(pairs)[i] == (pairs[i].0, pairs[i].1) == pairs[i];
    }
  }

  /** Custom attributes come back if their keys are tidy and nothing is too long, and only then. */
  lemma {:induction false} CustomBackIff(pairs: seq<(seq<byte>, CustomValue)>)
    ensures Merged([], CarriedPairs(pairs)) == pairs <==> Tidy(pairs) && Short(pairs)
  {
    hide Tidy, Short, Merged;
    var carried := CarriedPairs(pairs);
    assert Tidy([]) && Short([]) by { NothingIsTidy(); }
    ShortIsCarried(pairs);
    MergedIsTidy([], carried);
    MergedIsShort([], carried);
    if Tidy(pairs) && Short(pairs) {
      assert [] + pairs == pairs;
      TidyMerges([], pairs);
    }
  }

  lemma {:induction false} NothingIsTidy()
    ensures Tidy([]) && Short([])
  {
  }

  lemma {:induction false} CustomStorableIff(t: ItemType, attributes: Attributes, now: int)
    requires WellTyped(attributes)
    ensures Back(t, attributes, now, Custom) == Kept(attributes, now, Custom) <==> Storable(t, attributes, Custom)
  {
    hide Wrap, Signed, SubType, AtLeast, PortablePairs, Lower, Merged, IntAttr, Decaying, Remaining, Back,
      Running, InRange, InSignedRange, WrittenCharges, IsPlain;
    PlainComesBack(t, attributes, now, Custom);
    if Custom in attributes {
      assert attributes[Custom].Pairs?;
      var pairs := attributes[Custom].pairs;
      assert Tidy([]);
      CustomBackIff(pairs);
    }
  }

  lemma {:induction false} StorableIff(t: ItemType, attributes: Attributes, now: int, f: Field)
    requires WellTyped(attributes)
    ensures Back(t, attributes, now, f) == Kept(attributes, now, f) <==> Storable(t, attributes, f)
  {
    hide Back, Kept, Storable, WellTyped;
    if IsPlain(f) {
      PlainStorableIff(t, attributes, now, f);
    } else if IsChars(f) {
      CharsStorableIff(t, attributes, now, f);
    } else {
      match f {
        case Duration => DurationStorableIff(t, attributes, now);
        case DecayState => DecayStateStorableIff(t, attributes, now);
        case Custom => CustomStorableIff(t, attributes, now);
        case Count => SubTypeStorableIff(t, attributes, now, f);
        case FluidType => SubTypeStorableIff(t, attributes, now, f);
        case Charges => SubTypeStorableIff(t, attributes, now, f);
        case _ => OtherStorableIff(t, attributes, now, f);
      }
    }
  }

  lemma {:induction false} AttributesRestoredIff(t: ItemType, attributes: Attributes, now: int)
    requires WellTyped(attributes)
    ensures Reloaded(t, attributes, now, 0, Fresh(t)) == Restored(attributes, now)
       <==> forall f: Field :: Storable(t, attributes, f)
  {
    hide Back, Kept, Storable, WellTyped, Reloaded, Fresh;
    var a, b := Reloaded(t, attributes, now, 0, Fresh(t)), Restored(attributes, now);
    forall f: Field
      ensures Get(a, f) == Get(b, f) <==> Storable(t, attributes, f)
    {
      BackIsReloaded(t, attributes, now, f);
      StorableIff(t, attributes, now, f);
    }
    if forall f: Field :: Storable(t, attributes, f) {
      forall f: Field
        ensures (f in a <==> f in b) && (f in a ==> a[f] == b[f])
      {
        assert Storable(t, attributes, f) && Get(a, f) == Get(b, f);
      }
    }
    if a == b {
      forall f: Field
        ensures Storable(t, attributes, f)
      {
        assert Get(a, f) == Get(b, f);
      }
    }
  }

  function RestoredItem(item: Item, now: int): Item
    decreases item
  {
    Item(item.id, Restored(item.attributes, now), RestoredItems(item.items, now))
  }

  function RestoredItems(items: seq<Item>, now: int): (r: seq<Item>)
    ensures |r| == |items|
    decreases items
  {
    if items == [] then []
    else RestoredItems(items[..|items| - 1], now) + [RestoredItem(items[|items| - 1], now)]
  }

  /** Every field of the item and of all that is in it is storable. */
  ghost predicate AllStorable(catalog: Catalog, item: Item)
    decreases item
  {
    && (forall f: Field :: Storable(TypeOf(catalog, item.id), item.attributes, f))
    && forall i | 0 <= i < |item.items| :: AllStorable(catalog, item.items[i])
  }

  lemma {:induction false} RestoredIff(catalog: Catalog, item: Item, now: int)
    requires Sound(catalog, item)
    ensures ReloadedItem(catalog, item, now) == RestoredItem(item, now) <==> AllStorable(catalog, item)
    decreases item
  {
    hide Reloaded, Restored, Storable, Fresh, WellTyped, ReloadedItems, RestoredItems;
    AttributesRestoredIff(TypeOf(catalog, item.id), item.attributes, now);
    RestoredAllIff(catalog, item.items, now);
  }

  lemma {:induction false} RestoredAllIff(catalog: Catalog, items: seq<Item>, now: int)
    requires forall i | 0 <= i < |items| :: Sound(catalog, items[i])
    ensures ReloadedItems(catalog, items, now) == RestoredItems(items, now)
       <==> forall i | 0 <= i < |items| :: AllStorable(catalog, items[i])
    decreases items
  {
    hide ReloadedItem, RestoredItem, AllStorable, Sound;
    if items != [] {
      var init, last := items[..|items| - 1], items[|items| - 1];
      RestoredAllIff(catalog, init, now);
      RestoredIff(catalog, last, now);
      var a, b := ReloadedItems(catalog, init, now), RestoredItems(init, now);
      var x, y := ReloadedItem(catalog, last, now), RestoredItem(last, now);
      assert (a + [x])[..|init|] == a && (b + [y])[..|init|] == b;
      assert (a + [x])[|init|] == x && (b + [y])[|init|] == y;
      assert forall i | 0 <= i < |init| :: init[i] == items[i];
    }
  }

  /**
   Saving and loading an item, with all that is in it, gives it back - running decay pending - exactly when every
   field is storable; the bytes that follow are left unread in any case.
   */
  lemma {:induction false} RoundTrip(catalog: Catalog, item: Item, now: int, suffix: seq<byte>)
    requires Sound(catalog, item)
    ensures var saved := Saved(catalog, item, now);
            var loaded := Loaded(catalog, saved + suffix, 0);
            && loaded.Some? && |loaded.value.0| == 1 && loaded.value.1 == |saved|
            && (loaded.value.0[0] == RestoredItem(item, now) <==> AllStorable(catalog, item))
  {
    hide Saved, Loaded, Sound, ReloadedItem, RestoredItem, AllStorable;
    var saved := Saved(catalog, item, now);
    assert At(saved + suffix, 0, saved);
    LoadUndoesSave(catalog, item, now, saved + suffix, 0);
    RestoredIff(catalog, item, now);
  }

  /** Marks that serializeAttr never writes are lost: who owns an item or a corpse, ids of doors, unique ids. */
  lemma {:induction false} MarksAreLost(catalog: Catalog, item: Item, now: int, f: Field)
    requires Sound(catalog, item) && f in item.attributes && f in {UniqueId, Owner, CorpseOwner, DoorId}
    ensures f !in ReloadedItem(catalog, item, now).attributes
  {
    hide Reloaded, Fresh, Step, FieldOf, Stored, Carried, Written;
    var t := TypeOf(catalog, item.id);
    BackIsReloaded(t, item.attributes, now, f);
    NoCodeNoValue(t, item.attributes, now, f);
  }

  lemma {:induction false} NoCodeNoValue(t: ItemType, attributes: Attributes, now: int, f: Field)
    requires f in {UniqueId, Owner, CorpseOwner, DoorId}
    ensures Back(t, attributes, now, f) == None
  {
    hide Wrap, Signed;
  }

  /** A rune that has been used up comes back with all its charges. */
  lemma {:induction false} UsedUpIsRenewed(t: ItemType, now: int)
    requires t.charges == 5 && !t.fluid && !t.stackable && t.defaultDuration == 0
    ensures var attributes: Attributes := map[Count := Num(1), Charges := Num(0)];
            Get(Reloaded(t, attributes, now, 0, Fresh(t)), Charges) == Some(Num(5))
  {
    var attributes: Attributes := map[Count := Num(1), Charges := Num(0)];
    BackIsReloaded(t, attributes, now, Charges);
    WrapFits(0, 2);
    WrapFits(5, 2);
    assert Power(2) == 0x1_0000;
  }

  // ----- The bytes themselves ------------------------------------------------------------------

  lemma {:induction false} LowestFirst(n: nat, width: nat, k: nat)
    requires k < width
    ensures Bytes(n, width)[k] == n / Power(k) % 256
    decreases k
  {
    if k > 0 {
      LowestFirst(n / 256, width - 1, k - 1);
      DivideTwice(n, 256, Power(k - 1));
    }
  }

  lemma {:induction false} DivideTwice(n: nat, a: int, b: int)
    requires a > 0 && b > 0
    ensures a * b > 0 && n / a / b == n / (a * b)
  {
    var q, r := n / a, n % a;
    var s, u := q / b, q % b;
    Distributes(a, b, s, u);
    AtMost(a, u, b - 1);
    assert n == (a * b) * s + (a * u + r);
    Divides(n, a * b, s, a * u + r);
  }

  lemma {:induction false} Distributes(a: int, b: int, s: int, u: int)
    ensures a * (b * s + u) == (a * b) * s + a * u
  {
    assert a * (b * s) == (a * b) * s;
  }

  lemma {:induction false} AtMost(a: int, u: int, b: int)
    requires a > 0 && 0 <= u <= b
    ensures 0 <= a * u <= a * b && a * (b + 1) == a * b + a && a * (b + 1) > 0
  {
  }

  lemma {:induction false} StringOnDisk(s: seq<byte>)
    ensures |s| <= 65535 ==> StringBytes(s) == [|s| % 256, |s| / 256] + s
    ensures |s| > 65535 ==> StringBytes(s) == [0, 0]
  {
    var n := CarriedString(s);
    assert Bytes(|n|, 2) == [|n| % 256] + Bytes(|n| / 256, 1) == [|n| % 256, |n| / 256];
  }

  lemma {:induction false} CustomOnDisk(s: seq<byte>, n: int, bits: nat, b: bool)
    ensures CustomBytes(Str(s)) == [1] + StringBytes(s)
    ensures CustomBytes(Int(n)) == [2] + Bytes(n % 0x1_0000_0000_0000_0000, 8)
    ensures CustomBytes(Double(bits)) == [3] + Bytes(bits % 0x1_0000_0000_0000_0000, 8)
    ensures CustomBytes(Bool(b)) == [4, if b then 1 else 0]
  {
    hide StringBytes, Bytes;
    Powers();
  }

  lemma {:induction false} Powers()
    ensures Power(0) == 1 && Power(1) == 0x100 && Power(2) == 0x1_0000 && Power(4) == 0x1_0000_0000
    ensures Power(8) == 0x1_0000_0000_0000_0000
  {
    assert Power(3) == 0x100_0000 && Power(5) == 0x100_0000_0000;
    assert Power(6) == 0x1_0000_0000_0000 && Power(7) == 0x100_0000_0000_0000;
  }

  /** The codes stand in this order, each with its value or not at all. */
  lemma {:induction false} AttributesOnDisk(t: ItemType, attributes: Attributes, now: int)
    ensures AttributeBytes(t, attributes, now, 0)
         == Listed(t, attributes, now,
                   [15, 22, 4, 6, 18, 19, 7, 16, 17, 24, 25, 26, 27, 28, 29, 30, 35, 36, 31, 32, 33, 34, 37, 38])
  {
    var written: seq<byte> :=
      [15, 22, 4, 6, 18, 19, 7, 16, 17, 24, 25, 26, 27, 28, 29, 30, 35, 36, 31, 32, 33, 34, 37, 38];
    assert ORDER == written + [39];
    assert Piece(t, attributes, now, 39) == [];
    ListedFrom(t, attributes, now, written, 0);
  }

  function Listed(t: ItemType, attributes: Attributes, now: int, codes: seq<byte>): seq<byte> {
    if codes == [] then [] else Piece(t, attributes, now, codes[0]) + Listed(t, attributes, now, codes[1..])
  }

  lemma {:induction false} ListedFrom(t: ItemType, attributes: Attributes, now: int, codes: seq<byte>, i: nat)
    requires ORDER == codes + [39] && Piece(t, attributes, now, 39) == [] && i <= |codes|
    ensures AttributeBytes(t, attributes, now, i) == Listed(t, attributes, now, codes[i..])
    decreases |codes| - i
  {
    hide ORDER, Piece;
    if i < |codes| {
      ListedFrom(t, attributes, now, codes, i + 1);
      assert codes[i..][1..] == codes[i + 1..];
    } else {
      assert AttributeBytes(t, attributes, now, i + 1) == [];
    }
  }

  /** A number that is written whenever it is set. */
  lemma {:induction false} NumberOnDisk(t: ItemType, a: Attributes, now: int, f: Field, code: byte, width: nat)
    requires WellTyped(a)
    requires (f, code, width) in {(Weight, 27, 4), (Attack, 28, 4), (Defense, 29, 4), (ExtraDefense, 30, 4),
               (ImbuementSlot, 35, 4), (OpenContainer, 36, 1), (Armor, 31, 4), (HitChance, 32, 1), (ShootRange, 33, 1),
               (Quickloot, 38, 4)}
    ensures f in a ==> a[f].Num?
    ensures Piece(t, a, now, code) == if f in a then [code] + Bytes(a[f].n % Power(width), width) else []
  {
    hide Bytes, Power, PortablePairs;
  }

  /** A string; of the first three an empty one is not written. */
  lemma {:induction false} LineOnDisk(t: ItemType, a: Attributes, now: int, f: Field, code: byte)
    requires WellTyped(a)
    requires (f, code) in {(Text, 6), (Writer, 19), (Description, 7), (Name, 24), (Article, 25), (PluralName, 26),
               (Special, 34)}
    ensures f in a ==> a[f].Chars?
    ensures Piece(t, a, now, code)
         == if f in a && (code in {6, 19, 7} ==> a[f].s != []) then [code] + StringBytes(a[f].s) else []
  {
    hide StringBytes, Power, PortablePairs;
  }

  /** The sub type of what comes in stacks or holds a fluid, charges and the action id, unless they are 0. */
  lemma {:induction false} SmallOnDisk(t: ItemType, a: Attributes, now: int, f: Field)
    ensures IntAttr(a, f) == if f in a && a[f].Num? then a[f].n else 0
    ensures Piece(t, a, now, 15)
         == if t.stackable || t.fluid then [15, IntAttr(a, if t.fluid then FluidType else Count) % 256] else []
    ensures Piece(t, a, now, 22)
         == var n := IntAttr(a, Charges) % 65536; if n != 0 then [22, n % 256, n / 256] else []
    ensures Piece(t, a, now, 4)
         == var n := IntAttr(a, ActionId) % 65536; if t.moveable && n != 0 then [4, n % 256, n / 256] else []
  {
    Powers();
    ShortNumbers(IntAttr(a, if t.fluid then FluidType else Count) % 256, 0);
    ShortNumbers(0, IntAttr(a, Charges) % 65536);
    ShortNumbers(0, IntAttr(a, ActionId) % 65536);
    WrapFits(IntAttr(a, SubType(t)) % 256, 1);
    WrapFits(IntAttr(a, Charges) % 65536, 2);
    WrapFits(IntAttr(a, ActionId) % 65536, 2);
    hide Bytes, Power, IntAttr;
  }

  /** When it was written, how long it lasts, and whether it decays. */
  lemma {:induction false} TimesOnDisk(t: ItemType, a: Attributes, now: int)
    ensures Piece(t, a, now, 18)
         == var n := IntAttr(a, Date); if n != 0 then [18] + Bytes(n % 0x1_0000_0000, 4) else []
    ensures Piece(t, a, now, 16)
         == if Duration !in a then [] else [16] + Bytes(Remaining(a, now) % 0x1_0000_0000, 4)
    ensures Piece(t, a, now, 17)
         == var n := IntAttr(a, DecayState) % 256; if n == 1 || n == 2 then [17, n] else []
  {
    hide Remaining, Power, IntAttr, Bytes;
    Powers();
    ShortNumbers(IntAttr(a, DecayState) % 256, 0);
    WrapFits(IntAttr(a, DecayState) % 256, 1);
  }

  /** The custom attributes, with their number. */
  lemma {:induction false} TableOnDisk(t: ItemType, a: Attributes, now: int)
    requires WellTyped(a)
    ensures Custom in a ==> a[Custom].Pairs?
    ensures Piece(t, a, now, 37)
         == if Custom !in a then []
            else [37] + (Bytes(|a[Custom].pairs| % 0x1_0000_0000_0000_0000, 8) + PairsBytes(a[Custom].pairs))
  {
    hide PairsBytes, PortablePairs, Power, Bytes;
    Powers();
  }

  lemma {:induction false} ShortNumbers(small: nat, n: nat)
    requires small < 256 && n < 65536
    ensures Bytes(small, 1) == [small] && Bytes(n, 2) == [n % 256, n / 256]
  {
    assert Bytes(n, 2) == [n % 256] + Bytes(n / 256, 1);
  }

  /** The codes that are only read: the value, the field it goes to, and the bytes that are skipped. */
  lemma {:induction false} ReadOnly(t: ItemType, code: byte)
    ensures code == 5 ==> KindOf(code) == Word(2, false) && FieldOf(t, code) == Some(UniqueId)
    ensures code == 12 ==> KindOf(code) == Word(1, false) && FieldOf(t, code) == Some(SubType(t))
    ensures code == 39 ==> KindOf(code) == Line && FieldOf(t, code) == None
    ensures code in {10, 14, 20, 21, 8} ==> FieldOf(t, code) == None
    ensures code in {10, 14, 20, 21, 8} ==>
              KindOf(code) == Skipped(if code == 10 then 2 else if code == 14 then 1 else if code == 8 then 5 else 4)
    ensures code in {1, 2, 3, 9, 11, 13} || code > 39 ==> KindOf(code) == Unknown
  {
  }

  /** An item is its id, its attributes, for a container how much it holds and that, and an end mark. */
  lemma {:induction false} ItemOnDisk(catalog: Catalog, item: Item, now: int)
    requires item.id in catalog && item.id < 65536 && |item.items| < 0x1_0000_0000
    ensures var t := catalog[item.id];
            Saved(catalog, item, now)
            == [item.id % 256, item.id / 256] + (AttributeBytes(t, item.attributes, now, 0)
               + ((if t.isContainer then [23] + (Bytes(|item.items|, 4) + SavedAll(catalog, item.items, now)) else [])
                  + [0]))
  {
    Powers();
    ShortNumbers(0, item.id);
    WrapFits(item.id, 2);
    WrapFits(|item.items|, 4);
    hide AttributeBytes, Bytes, Wrap, Power, SavedAll;
  }

  /** The item on top of a container is written last. */
  lemma {:induction false} TopIsLast(catalog: Catalog, x: Item, items: seq<Item>, now: int)
    ensures SavedAll(catalog, [x] + items, now) == SavedAll(catalog, items, now) + Saved(catalog, x, now)
    decreases items
  {
    hide Saved;
    var all := [x] + items;
    if items == [] {
      assert all == [x] && all[..0] == [];
    } else {
      assert all[..|all| - 1] == [x] + items[..|items| - 1];
      TopIsLast(catalog, x, items[..|items| - 1], now);
    }
  }

  // ----- The streams ---------------------------------------------------------------------------

  class PropWriteStream {
    var buffer: seq<byte>

    constructor ()
      ensures buffer == []
    {
      buffer := [];
    }

    method Write(n: int, width: nat)
      modifies this
      ensures buffer == old(buffer) + Bytes(Wrap(n, width), width)
    {
      var rest := Wrap(n, width);
      var todo := width;
      while todo > 0
        invariant buffer + Bytes(rest, todo) == old(buffer) + Bytes(Wrap(n, width), width)
      {
        assert Bytes(rest, todo) == [rest % 256] + Bytes(rest / 256, todo - 1);
        buffer := buffer + [rest % 256];
        rest, todo := rest / 256, todo - 1;
      }
    }

    method WriteString(s: seq<byte>)
      modifies this
      ensures buffer == old(buffer) + StringBytes(s)
    {
      if |s| > MAX_STRING {
        Write(0, 2);
        assert Wrap(0, 2) == 0 by { WrapFits(0, 2); }
        return;
      }
      assert Wrap(|s|, 2) == |s| by {
        WrapFits(|s|, 2);
        assert Power(2) == 0x1_0000;
      }
      Write(|s|, 2);
      buffer := buffer + s;
    }

    method WriteCustom(v: CustomValue)
      modifies this
      ensures buffer == old(buffer) + CustomBytes(v)
    {
      hide Bytes, Wrap, StringBytes;
      match v
      case Blank =>
        buffer := buffer + [0];
      case Str(s) =>
        buffer := buffer + [1];
        WriteString(s);
      case Int(n) =>
        buffer := buffer + [2];
        Write(n, 8);
      case Double(bits) =>
        buffer := buffer + [3];
        Write(bits, 8);
      case Bool(b) =>
        buffer := buffer + [4];
        buffer := buffer + [if b then 1 else 0];
    }

    method WriteValue(kind: Kind, v: Value)
      modifies this
      ensures buffer == old(buffer) + ValueBytes(kind, v)
    {
      hide Bytes, Wrap, StringBytes, CustomBytes;
      match v
      case Num(n) =>
        if kind.Word? {
          Write(n, kind.width);
        }
      case Chars(s) =>
        WriteString(s);
      case Pairs(pairs) =>
        Write(|pairs|, 8);
        WritePairs(pairs);
    }

    method WritePairs(pairs: seq<(seq<byte>, CustomValue)>)
      modifies this
      ensures buffer == old(buffer) + PairsBytes(pairs)
    {
      hide StringBytes, CustomBytes;
      for i := 0 to |pairs|
        invariant buffer + PairsBytes(pairs[i..]) == old(buffer) + PairsBytes(pairs)
      {
        assert pairs[i..][0] == pairs[i] && pairs[i..][1..] == pairs[i + 1..];
        WriteString(pairs[i].0);
        WriteCustom(pairs[i].1);
      }
    }
  }

  class PropStream {
    const data: seq<byte>
    var p: nat

    constructor (data: seq<byte>)
      ensures Valid() && this.data == data && p == 0
    {
      this.data, p := data, 0;
    }

    predicate Valid()
      reads this
    {
      p <= |data|
    }

    method Read(width: nat) returns (n: Option<nat>)
      requires Valid()
      modifies this
      ensures Valid() && old(p) <= p && n == ReadNumber(data, old(p), width)
      ensures p == if n.Some? then old(p) + width else old(p)
    {
      if |data| - p < width {
        return None;
      }
      n := Some(Number(data[p..p + width]));
      p := p + width;
    }

    method ReadChars() returns (s: Option<seq<byte>>)
      requires Valid()
      modifies this
      ensures Valid() && old(p) <= p
      ensures match ReadString(data, old(p))
              case None => s.None?
              case Some(r) => s == Some(r.0) && p == r.1
    {
      var length := Read(2);
      if length.None? || |data| - p < length.value {
        return None;
      }
      s := Some(data[p..p + length.value]);
      p := p + length.value;
    }

    method Skip(n: nat) returns (ok: bool)
      requires Valid()
      modifies this
      ensures Valid() && ok == (n <= |data| - old(p)) && p == if ok then old(p) + n else old(p)
    {
      if |data| - p < n {
        return false;
      }
      p := p + n;
      ok := true;
    }

    method Unserialize() returns (v: Option<CustomValue>)
      requires Valid()
      modifies this
      ensures Valid() && old(p) <= p
      ensures match ReadCustom(data, old(p))
              case None => v.None?
              case Some(r) => v == Some(r.0) && p == r.1
    {
      hide Number, ReadString;
      var pos := Read(1);
      assert pos.Some? ==> pos.value == data[old(p)] by { ReadByte(data, old(p)); }
      v := None;
      if pos.None? {
        return;
      }
      match pos.value {
        case 1 =>
          var tmp := ReadChars();
          v := if tmp.Some? then Some(Str(tmp.value)) else None;
        case 2 =>
          var tmp := Read(8);
          v := if tmp.Some? then Some(Int(Signed(tmp.value, 8))) else None;
        case 3 =>
          var tmp := Read(8);
          v := if tmp.Some? then Some(Double(tmp.value)) else None;
        case 4 =>
          var tmp := Read(1);
          assert tmp.Some? ==> tmp.value == data[old(p) + 1] by { ReadByte(data, old(p) + 1); }
          v := if tmp.Some? then Some(Bool(tmp.value != 0)) else None;
        case _ =>
      }
    }
  }

  lemma {:induction false} ReadByte(data: seq<byte>, p: nat)
    requires p <= |data|
    ensures ReadNumber(data, p, 1) == if p < |data| then Some(data[p]) else None
  {
    if p < |data| {
      var one := data[p..p + 1];
      assert one[1..] == [] && Number([]) == 0;
    }
  }

  // ----- Saving and loading --------------------------------------------------------------------

  method SerializeAttr(stream: PropWriteStream, t: ItemType, attributes: Attributes, now: int)
    modifies stream
    ensures stream.buffer == old(stream.buffer) + AttributeBytes(t, attributes, now, 0)
  {
    hide ORDER, Piece;
    var i := 0;
    while i < |ORDER|
      invariant i <= |ORDER|
      invariant stream.buffer + AttributeBytes(t, attributes, now, i)
             == old(stream.buffer) + AttributeBytes(t, attributes, now, 0)
    {
      ghost var before, rest := stream.buffer, AttributeBytes(t, attributes, now, i + 1);
      ghost var piece := Piece(t, attributes, now, ORDER[i]);
      assert AttributeBytes(t, attributes, now, i) == piece + rest;
      WriteAttr(stream, t, attributes, now, ORDER[i]);
      assert before + (piece + rest) == before + piece + rest;
      i := i + 1;
    }
    assert AttributeBytes(t, attributes, now, |ORDER|) == [];
  }

  /** One of the conditional writes of serializeAttr. */
  method WriteAttr(stream: PropWriteStream, t: ItemType, attributes: Attributes, now: int, code: byte)
    modifies stream
    ensures stream.buffer == old(stream.buffer) + Piece(t, attributes, now, code)
  {
    hide Written, KindOf, ValueBytes;
    var v := Written(t, attributes, now, code);
    if v.Some? {
      stream.buffer := stream.buffer + [code];
      stream.WriteValue(KindOf(code), v.value);
    }
  }

  method SaveItem(stream: PropWriteStream, catalog: Catalog, item: Item, now: int)
    modifies stream
    ensures stream.buffer == old(stream.buffer) + Saved(catalog, item, now)
    decreases item
  {
    hide Bytes, Wrap, AttributeBytes, SavedAll;
    var t := TypeOf(catalog, item.id);
    stream.Write(item.id, 2);
    SerializeAttr(stream, t, item.attributes, now);
    if t.isContainer {
      stream.buffer := stream.buffer + [23];
      stream.Write(|item.items|, 4);
      SaveContents(stream, catalog, item.items, now);
    }
    stream.buffer := stream.buffer + [0];
  }

  method SaveContents(stream: PropWriteStream, catalog: Catalog, items: seq<Item>, now: int)
    modifies stream
    ensures stream.buffer == old(stream.buffer) + SavedAll(catalog, items, now)
    decreases items
  {
    hide Saved;
    if items != [] {
      SaveItem(stream, catalog, items[|items| - 1], now);
      SaveContents(stream, catalog, items[..|items| - 1], now);
    }
  }

  /** How readAttr ends. */
  datatype AttrRead = Error | Continue(attributes: Attributes) | End(attributes: Attributes, serializationCount: nat)

  method ReadAttr(stream: PropStream, t: ItemType, code: byte, attributes: Attributes) returns (r: AttrRead)
    requires stream.Valid() && code != 0
    modifies stream
    ensures stream.Valid() && old(stream.p) <= stream.p
    ensures r == if code == 23 then
                   (if !t.isContainer then Error else
                      match ReadNumber(stream.data, old(stream.p), 4)
                      case None => Error
                      case Some(n) => End(attributes, n))
                 else
                   match ReadValue(KindOf(code), stream.data, old(stream.p))
                   case None => Error
                   case Some(v) => Continue(Applied(t, code, v.0, attributes))
    ensures r.End? ==> stream.p == old(stream.p) + 4
    ensures r.Continue? ==> ReadValue(KindOf(code), stream.data, old(stream.p)).value.1 == stream.p
  {
    hide Applied, Number, ReadString, ReadPairs;
    r := Error;
    if code == 23 {
      if t.isContainer {
        var n := stream.Read(4);
        r := if n.Some? then End(attributes, n.value) else Error;
      }
      return;
    }
    match KindOf(code) {
      case Word(width, signed) =>
        var n := stream.Read(width);
        if n.Some? {
          r := Continue(Applied(t, code, Num(if signed then Signed(n.value, width) else n.value), attributes));
        }
      case Line =>
        var s := stream.ReadChars();
        if s.Some? {
          r := Continue(Applied(t, code, Chars(s.value), attributes));
        }
      case Table =>
        var n := stream.Read(8);
        if n.Some? {
          var pairs := ReadTable(stream, n.value);
          if pairs.Some? {
            r := Continue(Applied(t, code, Pairs(pairs.value), attributes));
          }
        }
      case Skipped(width) =>
        var ok := stream.Skip(width);
        if ok {
          r := Continue(Applied(t, code, Num(0), attributes));
        }
      case Contents =>
      case Unknown =>
    }
  }

  method ReadTable(stream: PropStream, size: nat) returns (pairs: Option<seq<(seq<byte>, CustomValue)>>)
    requires stream.Valid()
    modifies stream
    ensures stream.Valid() && old(stream.p) <= stream.p
    ensures match ReadPairs(stream.data, old(stream.p), size)
            case None => pairs.None?
            case Some(r) => pairs == Some(r.0) && stream.p == r.1
  {
    hide ReadString, ReadCustom;
    var done := [];
    var i := 0;
    ghost var all := ReadPairs(stream.data, stream.p, size);
    while i < size
      invariant i <= size && stream.Valid() && old(stream.p) <= stream.p
      invariant all == Behind(done, ReadPairs(stream.data, stream.p, size - i))
    {
      ghost var rest := ReadPairs(stream.data, stream.p, size - i);
      var key := stream.ReadChars();
      if key.None? {
        return None;
      }
      var val := stream.Unserialize();
      if val.None? {
        return None;
      }
      assert rest == Behind([(key.value, val.value)], ReadPairs(stream.data, stream.p, size - i - 1));
      BehindTwice(done, [(key.value, val.value)], ReadPairs(stream.data, stream.p, size - i - 1));
      done := done + [(key.value, val.value)];
      i := i + 1;
    }
    assert done + [] == done;
    pairs := Some(done);
  }

  /** What has been read, and behind it what is read next. */
  ghost function Behind(done: seq<(seq<byte>, CustomValue)>, r: Option<(seq<(seq<byte>, CustomValue)>, nat)>)
    : (s: Option<(seq<(seq<byte>, CustomValue)>, nat)>)
    ensures done == [] ==> s == r
  {
    match r
    case None => None
    case Some(x) =>
      assert done == [] ==> done + x.0 == x.0;
      Some((done + x.0, x.1))
  }

  lemma {:induction false} BehindTwice(a: seq<(seq<byte>, CustomValue)>, b: seq<(seq<byte>, CustomValue)>,
      r: Option<(seq<(seq<byte>, CustomValue)>, nat)>)
    ensures Behind(a, Behind(b, r)) == Behind(a + b, r)
  {
    if r.Some? {
      assert a + (b + r.value.0) == a + b + r.value.0;
    }
  }

  method UnserializeAttr(stream: PropStream, t: ItemType, initial: Attributes) returns (r: Ending)
    requires stream.Valid()
    modifies stream
    ensures stream.Valid() && old(stream.p) <= stream.p
    ensures r == LoadedAttributes(t, stream.data, old(stream.p), initial)
    ensures !r.Failed? ==> stream.p == r.p
  {
    hide ReadValue, ReadNumber, Applied;
    var attributes := initial;
    while true
      invariant stream.Valid() && old(stream.p) <= stream.p
      invariant LoadedAttributes(t, stream.data, stream.p, attributes)
             == LoadedAttributes(t, stream.data, old(stream.p), initial)
      decreases |stream.data| - stream.p
    {
      ReadByte(stream.data, stream.p);
      var code := stream.Read(1);
      if code.None? {
        return Ended(attributes, stream.p);
      }
      if code.value == 0 {
        return Ended(attributes, stream.p);
      }
      var ret := ReadAttr(stream, t, code.value, attributes);
      match ret {
        case Error =>
          return Failed;
        case End(a, n) =>
          return Holds(a, n, stream.p);
        case Continue(a) =>
          attributes := a;
      }
    }
  }

  /** An item off the stream, put in front of what its parent holds; `ok` is false for a stream that is broken. */
  method LoadItem(stream: PropStream, catalog: Catalog, parent: seq<Item>) returns (ok: bool, holding: seq<Item>)
    requires stream.Valid()
    modifies stream
    ensures stream.Valid() && old(stream.p) <= stream.p
    ensures match Loaded(catalog, stream.data, old(stream.p))
            case None => !ok
            case Some(r) => ok && holding == r.0 + parent && stream.p == r.1
    ensures ok ==> old(stream.p) < stream.p
    decreases |stream.data| - stream.p, 0
  {
    hide LoadedAttributes, ReadNumber, Fresh;
    ok, holding := false, parent;
    var id := stream.Read(2);
    if id.None? {
      return;
    }
    if id.value !in catalog {
      return true, parent;
    }
    var t := catalog[id.value];
    var ending := UnserializeAttr(stream, t, Fresh(t));
    match ending {
      case Failed =>
        return;
      case Ended(attributes, q) =>
        if t.isContainer {
          assert LoadedAll(catalog, stream.data, q, 0) == Some(([], q));
          var loaded, items := LoadContainer(stream, catalog, 0);
          if loaded {
            return true, [Item(id.value, attributes, items)] + parent;
          }
        } else {
          return true, [Item(id.value, attributes, [])] + parent;
        }
      case Holds(attributes, count, q) =>
        var loaded, items := LoadContainer(stream, catalog, count);
        if loaded {
          return true, [Item(id.value, attributes, items)] + parent;
        }
    }
  }

  /** The contents of a container and the mark behind them. */
  method LoadContainer(stream: PropStream, catalog: Catalog, count: nat) returns (ok: bool, holding: seq<Item>)
    requires stream.Valid()
    modifies stream
    ensures stream.Valid() && old(stream.p) <= stream.p
    ensures match LoadedAll(catalog, stream.data, old(stream.p), count)
            case None => !ok
            case Some(r) =>
              if r.1 < |stream.data| && stream.data[r.1] == 0 then ok && holding == r.0 && stream.p == r.1 + 1 else !ok
    decreases |stream.data| - stream.p, 1
  {
    hide Loaded, ReadNumber;
    ok, holding := false, [];
    var serializationCount := count;
    ghost var all := LoadedAll(catalog, stream.data, stream.p, count);
    while serializationCount > 0
      invariant stream.Valid() && old(stream.p) <= stream.p
      invariant all == Before(LoadedAll(catalog, stream.data, stream.p, serializationCount), holding)
    {
      var loaded;
      BeforeTwice(catalog, stream.data, stream.p, serializationCount, holding);
      loaded, holding := LoadItem(stream, catalog, holding);
      if !loaded {
        return false, holding;
      }
      serializationCount := serializationCount - 1;
    }
    ReadByte(stream.data, stream.p);
    var endAttr := stream.Read(1);
    ok := endAttr.Some? && endAttr.value == 0;
  }

  /** What is still to come, in front of what is there. */
  ghost function Before(r: Option<(seq<Item>, nat)>, holding: seq<Item>): (s: Option<(seq<Item>, nat)>)
    ensures holding == [] ==> s == r
  {
    match r
    case None => None
    case Some(x) =>
      assert holding == [] ==> x.0 + holding == x.0;
      Some((x.0 + holding, x.1))
  }

  lemma {:induction false} BeforeTwice(catalog: Catalog, data: seq<byte>, p: nat, count: nat, holding: seq<Item>)
    requires p <= |data| && count > 0
    ensures Before(LoadedAll(catalog, data, p, count), holding)
         == match Loaded(catalog, data, p)
            case None => None
            case Some(first) => Before(LoadedAll(catalog, data, first.1, count - 1), first.0 + holding)
  {
    hide Loaded;
    var first := Loaded(catalog, data, p);
    if first.Some? {
      var rest := LoadedAll(catalog, data, first.value.1, count - 1);
      if rest.Some? {
        assert rest.value.0 + first.value.0 + holding == rest.value.0 + (first.value.0 + holding);
      }
    }
  }
}
