/** gpio.h: the function-select registers, ten 3-bit pin functions to a 32-bit word. */
module Gpio {
  import opened Bytes

  const REGISTERS := 6
  const PINS := 60

  type Pin = p: byte | p < PINS

  type Code = c: bv32 | c <= 7

  predicate IsShift(s: bv32) {
    s == 0 || s == 3 || s == 6 || s == 9 || s == 12 || s == 15 || s == 18 || s == 21 || s == 24 || s == 27
  }

  /** The bit at which a pin's field starts: three times the pin's place in its word. */
  function Shift(pin: Pin): (s: bv32)
    ensures IsShift(s)
  {
    var i := pin % 10;
    if i == 0 then 0 else if i == 1 then 3 else if i == 2 then 6 else if i == 3 then 9 else if i == 4 then 12
    else if i == 5 then 15 else if i == 6 then 18 else if i == 7 then 21 else if i == 8 then 24 else 27
  }

  lemma ShiftInWord(pin: Pin)
    ensures Shift(pin) <= 27
  {
  }

  lemma DifferentShifts(p: Pin, q: Pin)
    requires p % 10 != q % 10
    ensures Shift(p) != Shift(q)
  {
  }

  /** Two fields do not overlap. */
  ghost predicate Apart(shift: bv32, other: bv32)
    requires shift <= 27 && other <= 27
  {
    shift + 3 <= other || other + 3 <= shift
  }

  function Field(word: bv32, shift: bv32): Code
    requires shift <= 27
  {
    (word >> shift) & 7
  }

  /** The read-modify-write of one field. */
  function WithField(word: bv32, shift: bv32, code: Code): bv32
    requires shift <= 27
  {
    (word & !(7 << shift)) | (code << shift)
  }

  lemma FieldSet(word: bv32, shift: bv32, code: Code)
    requires shift <= 27
    ensures Field(WithField(word, shift, code), shift) == code
    ensures WithField(word, shift, code) >> 30 == word >> 30
  {
  }

  lemma LowFieldsKept(word: bv32, shift: bv32, code: Code)
    requires shift <= 27
    ensures Apart(shift, 0) ==> Field(WithField(word, shift, code), 0) == Field(word, 0)
    ensures Apart(shift, 3) ==> Field(WithField(word, shift, code), 3) == Field(word, 3)
    ensures Apart(shift, 6) ==> Field(WithField(word, shift, code), 6) == Field(word, 6)
    ensures Apart(shift, 9) ==> Field(WithField(word, shift, code), 9) == Field(word, 9)
    ensures Apart(shift, 12) ==> Field(WithField(word, shift, code), 12) == Field(word, 12)
  {
  }

  lemma HighFieldsKept(word: bv32, shift: bv32, code: Code)
    requires shift <= 27
    ensures Apart(shift, 15) ==> Field(WithField(word, shift, code), 15) == Field(word, 15)
    ensures Apart(shift, 18) ==> Field(WithField(word, shift, code), 18) == Field(word, 18)
    ensures Apart(shift, 21) ==> Field(WithField(word, shift, code), 21) == Field(word, 21)
    ensures Apart(shift, 24) ==> Field(WithField(word, shift, code), 24) == Field(word, 24)
    ensures Apart(shift, 27) ==> Field(WithField(word, shift, code), 27) == Field(word, 27)
  {
  }

  lemma FieldKept(word: bv32, shift: bv32, code: Code, other: bv32)
    requires shift <= 27 && IsShift(other) && Apart(shift, other)
    ensures Field(WithField(word, shift, code), other) == Field(word, other)
  {
    hide Field, WithField;
    LowFieldsKept(word, shift, code);
    HighFieldsKept(word, shift, code);
  }

  /** A word is its ten fields and its two spare bits. */
  lemma WordIsItsFields(x: bv32, y: bv32)
    requires Field(x, 0) == Field(y, 0) && Field(x, 3) == Field(y, 3)
    requires Field(x, 6) == Field(y, 6) && Field(x, 9) == Field(y, 9)
    requires Field(x, 12) == Field(y, 12) && Field(x, 15) == Field(y, 15)
    requires Field(x, 18) == Field(y, 18) && Field(x, 21) == Field(y, 21)
    requires Field(x, 24) == Field(y, 24) && Field(x, 27) == Field(y, 27)
    requires x >> 30 == y >> 30
    ensures x == y
  {
  }

  lemma SameOrApart(shift: bv32, other: bv32)
    requires IsShift(shift) && IsShift(other)
    ensures shift <= 27 && other <= 27 && (shift == other || (Apart(shift, other) && Apart(other, shift)))
  {
  }

  lemma SameField(word: bv32, shift: bv32, code: Code, other: bv32, code': Code, k: bv32)
    requires IsShift(shift) && IsShift(other) && IsShift(k) && shift != other
    requires shift <= 27 && other <= 27 && k <= 27
    ensures Field(WithField(WithField(word, shift, code), other, code'), k) ==
            Field(WithField(WithField(word, other, code'), shift, code), k)
  {
    hide Field, WithField, IsShift, Apart;
    var x, y := WithField(word, shift, code), WithField(word, other, code');
    FieldSet(word, shift, code);
    FieldSet(word, other, code');
    FieldSet(x, other, code');
    FieldSet(y, shift, code);
    SameOrApart(shift, k);
    SameOrApart(other, k);
    if k != shift {
      FieldKept(word, shift, code, k);
      FieldKept(y, shift, code, k);
    }
    if k != other {
      FieldKept(word, other, code', k);
      FieldKept(x, other, code', k);
    }
  }

  lemma AllShifts()
    ensures IsShift(0) && IsShift(3) && IsShift(6) && IsShift(9) && IsShift(12)
    ensures IsShift(15) && IsShift(18) && IsShift(21) && IsShift(24) && IsShift(27)
  {
  }

  lemma FieldsCommute(word: bv32, shift: bv32, code: Code, other: bv32, code': Code)
    requires IsShift(shift) && IsShift(other) && shift != other
    requires shift <= 27 && other <= 27
    ensures WithField(WithField(word, shift, code), other, code') ==
            WithField(WithField(word, other, code'), shift, code)
  {
    hide Field, WithField, IsShift;
    AllShifts();
    SameField(word, shift, code, other, code', 0);
    SameField(word, shift, code, other, code', 3);
    SameField(word, shift, code, other, code', 6);
    SameField(word, shift, code, other, code', 9);
    SameField(word, shift, code, other, code', 12);
    SameField(word, shift, code, other, code', 15);
    SameField(word, shift, code, other, code', 18);
    SameField(word, shift, code, other, code', 21);
    SameField(word, shift, code, other, code', 24);
    SameField(word, shift, code, other, code', 27);
    FieldSet(word, shift, code);
    FieldSet(word, other, code');
    FieldSet(WithField(word, shift, code), other, code');
    FieldSet(WithField(word, other, code'), shift, code);
    WordIsItsFields(WithField(WithField(word, shift, code), other, code'),
                    WithField(WithField(word, other, code'), shift, code));
  }

  // ----- the six registers as a map from pin to function

  type Registers = r: seq<bv32> | |r| == REGISTERS
    witness [0, 0, 0, 0, 0, 0]

  function FunctionOf(r: Registers, pin: Pin): Code {
    Field(r[pin / 10], Shift(pin))
  }

  function WithFunction(r: Registers, pin: Pin, code: Code): Registers {
    r[pin / 10 := WithField(r[pin / 10], Shift(pin), code)]
  }

  datatype Call = FunctionSet(pin: Pin, function': byte) | OutputSet(pin: Pin, output: byte)
  {
    /** A function number above 5 is ignored. */
    predicate Effective() {
      OutputSet? || function' <= 5
    }

    /** The datasheet's code for the call. */
    function Code(): Code
      requires Effective()
    {
      match this
      case OutputSet(_, output) => if output != 0 then 1 else 0
      case FunctionSet(_, f) =>
        if f == 0 then 4 else if f == 1 then 5 else if f == 2 then 6 else if f == 3 then 7 else if f == 4 then 3 else 2
    }
  }

  function After(r: Registers, c: Call): Registers {
    if c.Effective() then WithFunction(r, c.pin, c.Code()) else r
  }

  function AfterAll(r: Registers, cs: seq<Call>): Registers {
    if cs == [] then r else After(AfterAll(r, cs[..|cs| - 1]), cs[|cs| - 1])
  }

  /** The last call that has an effect on a pin, or -1. */
  function LastEffective(cs: seq<Call>, pin: Pin): (i: int)
    ensures -1 <= i < |cs|
    ensures 0 <= i ==> cs[i].pin == pin && cs[i].Effective()
    ensures forall j :: 0 <= j < |cs| && i < j ==> cs[j].pin != pin || !cs[j].Effective()
  {
    if cs == [] then -1
    else if cs[|cs| - 1].pin == pin && cs[|cs| - 1].Effective() then |cs| - 1
    else LastEffective(cs[..|cs| - 1], pin)
  }

  lemma WithFunctionAt(r: Registers, pin: Pin, code: Code, q: Pin)
    ensures FunctionOf(WithFunction(r, pin, code), q) == if q == pin then code else FunctionOf(r, q)
    ensures WithFunction(r, pin, code)[q / 10] >> 30 == r[q / 10] >> 30
  {
    FieldSet(r[pin / 10], Shift(pin), code);
    if q != pin && q / 10 == pin / 10 {
      DifferentShifts(pin, q);
      FieldKept(r[pin / 10], Shift(pin), code, Shift(q));
    }
  }

  /** After any calls in any order, every pin has the function of the last effective call on
      it, or the one it had; the two spare bits of every word are as they were. */
  lemma {:induction false} RegistersAreAMap(r: Registers, cs: seq<Call>, q: Pin)
    ensures var i := LastEffective(cs, q);
            FunctionOf(AfterAll(r, cs), q) == if 0 <= i then cs[i].Code() else FunctionOf(r, q)
    ensures AfterAll(r, cs)[q / 10] >> 30 == r[q / 10] >> 30
  {
    if cs != [] {
      var front, c := cs[..|cs| - 1], cs[|cs| - 1];
      RegistersAreAMap(r, front, q);
      if c.Effective() {
        WithFunctionAt(AfterAll(r, front), c.pin, c.Code(), q);
      }
    }
  }

  /** Where a pin's field lies: the three bits from bit 3 * (pin % 10) on of word pin / 10. */
  lemma FieldPlace(r: Registers, pin: Pin)
    ensures FunctionOf(r, pin) == (r[pin / 10] >> (3 * (pin % 10)) as bv32) & 7
  {
    ShiftPlace(pin);
    hide Shift;
  }

  lemma ShiftPlace(pin: Pin)
    ensures Shift(pin) == (3 * (pin % 10)) as bv32
  {
    var i: int := pin % 10;
    assert i == 0 || i == 1 || i == 2 || i == 3 || i == 4 || i == 5 || i == 6 || i == 7 || i == 8 || i == 9;
    assert 0 as bv32 == 0 && 3 as bv32 == 3 && 6 as bv32 == 6 && 9 as bv32 == 9 && 12 as bv32 == 12;
    assert 15 as bv32 == 15 && 18 as bv32 == 18 && 21 as bv32 == 21 && 24 as bv32 == 24 && 27 as bv32 == 27;
  }

  /** One call, with the codes spelled out: functions 0 to 5 and outputs 0 and 1 set the pin's
      field, other functions nothing, and no call any other pin's. */
  lemma CallCodes(r: Registers, pin: Pin, f: byte, output: byte, q: Pin)
    ensures f <= 5 ==> FunctionOf(After(r, FunctionSet(pin, f)), pin) == [4, 5, 6, 7, 3, 2][f]
    ensures 5 < f ==> After(r, FunctionSet(pin, f)) == r
    ensures FunctionOf(After(r, OutputSet(pin, output)), pin) == if output == 0 then 0 else 1
    ensures q != pin ==>
              && FunctionOf(After(r, FunctionSet(pin, f)), q) == FunctionOf(r, q)
              && FunctionOf(After(r, OutputSet(pin, output)), q) == FunctionOf(r, q)
  {
    hide FunctionOf, WithFunction;
    var c, d := FunctionSet(pin, f), OutputSet(pin, output);
    if f <= 5 {
      WithFunctionAt(r, pin, c.Code(), pin);
      WithFunctionAt(r, pin, c.Code(), q);
    }
    WithFunctionAt(r, pin, d.Code(), pin);
    WithFunctionAt(r, pin, d.Code(), q);
  }

  lemma DifferentPinsCommute(r: Registers, c: Call, d: Call)
    requires c.pin != d.pin
    ensures After(After(r, c), d) == After(After(r, d), c)
  {
    hide WithField, Shift;
    if c.Effective() && d.Effective() && c.pin / 10 == d.pin / 10 {
      DifferentShifts(c.pin, d.pin);
      FieldsCommute(r[c.pin / 10], Shift(c.pin), c.Code(), Shift(d.pin), d.Code());
    }
  }

  class GpioBlock {
    const fsel: array<bv32>

    ghost predicate Valid() {
      fsel.Length == REGISTERS
    }

    ghost function Contents(): Registers
      requires Valid()
      reads fsel
    {
      fsel[..]
    }

    constructor ()
      ensures Valid() && fresh(fsel)
    {
      fsel := new bv32[REGISTERS](i => 0);
    }

    method SetField(pin: Pin, code: Code)
      requires Valid()
      modifies fsel
      ensures Contents() == WithFunction(old(Contents()), pin, code)
    {
      hide WithField, Shift, IsShift;
      var regnum, offset := pin / 10, Shift(pin);
      ShiftInWord(pin);
      fsel[regnum] := WithField(fsel[regnum], offset, code);
    }

    method Perform(call: Call)
      requires Valid()
      modifies fsel
      ensures Contents() == After(old(Contents()), call)
    {
      match call {
        case FunctionSet(pin, f) =>
          if f > 5 {
            return;
          }
          SetField(pin, call.Code());
        case OutputSet(pin, output) =>
          SetField(pin, call.Code());
      }
    }
  }
}
