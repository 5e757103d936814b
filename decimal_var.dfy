/**
 * A BigInt variable of the decimal-string revision: the object whose `value` and
 * `sign` the constructors and assignments of src/BigInt.cpp, the compound
 * assignments of include/operators/arithmetic_assignment.hpp and the increments of
 * include/operators/increment_decrement.hpp overwrite in place.
 */
module DecimalVar {
  import opened Wrappers
  import opened DecimalDigits
  import opened DecimalBigInt
  import opened DecimalArithmetic
  import opened DecimalDivision

  class BigIntVar {
    var value: string
    var sign: char

    /** The number the object currently holds, as a value. */
    function Current(): BigInt
      reads this
    {
      BigInt(value, sign)
    }

    /** BigInt(): "0" with sign '+'. */
    constructor()
      ensures Current() == Default()
    {
      value := "0";
      sign := '+';
    }

    /** The copy constructor. */
    constructor Copy(num: BigInt)
      ensures Current() == num
    {
      value := num.value;
      sign := num.sign;
    }

    /** BigInt(long long). */
    constructor FromLong(num: int)
      requires IsLongLong(num)
      ensures Current() == FromLongLong(num) && ToInt(Current()) == num
    {
      var temp := FromLongLong(num);
      value := temp.value;
      sign := temp.sign;
    }

    /** BigInt(std::string): invalid text ends the program, here a failure with the input. */
    static method FromText(num: string) returns (r: Result<BigIntVar>)
      ensures r.Failure? <==> !IsValidBigIntString(num)
      ensures r.Failure? ==> r.error == InvalidInput(num)
      ensures r.Success? ==> fresh(r.value) && r.value.Current() == FromString(num).value
    {
      var parsed := FromString(num);
      if parsed.Failure? {
        return Failure(parsed.error);
      }
      var v := new BigIntVar.Copy(parsed.value);
      r := Success(v);
    }

    // -------------------------------------------------------------------------
    // operator=
    // -------------------------------------------------------------------------

    /** operator=(BigInt): copies both fields and returns the new value. */
    method Assign(num: BigInt) returns (r: BigInt)
      modifies this
      ensures Current() == num && r == num
    {
      value := num.value;
      sign := num.sign;
      r := Current();
    }

    /** operator=(long long): the fields of BigInt(num). */
    method AssignLong(num: int) returns (r: BigInt)
      requires IsLongLong(num)
      modifies this
      ensures Current() == FromLongLong(num) && r == Current() && ToInt(r) == num
    {
      var temp := FromLongLong(num);
      value := temp.value;
      sign := temp.sign;
      r := Current();
    }

    /** operator=(std::string): the fields of BigInt(num); invalid text leaves the object as it was. */
    method AssignStr(num: string) returns (r: Result<BigInt>)
      modifies this
      ensures r.Failure? <==> !IsValidBigIntString(num)
      ensures r.Failure? ==> r.error == InvalidInput(num) && Current() == old(Current())
      ensures r.Success? ==> Current() == FromString(num).value && r.value == Current()
    {
      var temp := FromString(num);
      if temp.Failure? {
        return Failure(temp.error);
      }
      value := temp.value.value;
      sign := temp.value.sign;
      r := Success(Current());
    }

    // -------------------------------------------------------------------------
    // Compound assignment with a BigInt
    // -------------------------------------------------------------------------

    method AddAssign(num: BigInt) returns (r: BigInt)
      requires Canonical(Current()) && Canonical(num)
      modifies this
      ensures Canonical(Current()) && r == Current()
      ensures ToInt(Current()) == ToInt(old(Current())) + ToInt(num)
    {
      var sum := Add(Current(), num);
      r := Assign(sum);
    }

    method SubAssign(num: BigInt) returns (r: BigInt)
      requires Canonical(Current()) && Canonical(num)
      modifies this
      ensures Canonical(Current()) && r == Current()
      ensures ToInt(Current()) == ToInt(old(Current())) - ToInt(num)
    {
      var difference := Sub(Current(), num);
      r := Assign(difference);
    }

    method MulAssign(num: BigInt) returns (r: BigInt)
      requires Canonical(Current()) && Canonical(num)
      modifies this
      ensures Canonical(Current()) && r == Current()
      ensures ToInt(Current()) == ToInt(old(Current())) * ToInt(num)
    {
      var product := Mul(Current(), num);
      r := Assign(product);
    }

    /** `/=`: a zero divisor throws before the object is assigned. */
    method DivAssign(num: BigInt) returns (r: Result<BigInt>)
      requires WellFormed(Current()) && WellFormed(num)
      modifies this
      ensures r.Failure? <==> ToInt(num) == 0
      ensures r.Failure? ==> r.error == DivisionByZero && Current() == old(Current())
      ensures r.Success? ==> r.value == Current() && Canonical(Current())
      ensures r.Success? ==> ToInt(Current()) == TruncDiv(ToInt(old(Current())), ToInt(num))
    {
      var quotient := Div(Current(), num);
      if quotient.Failure? {
        return quotient;
      }
      DivModIdentity(Current(), num);
      var v := Assign(quotient.value);
      r := Success(v);
    }

    /** `%=`: a zero divisor throws before the object is assigned. */
    method ModAssign(num: BigInt) returns (r: Result<BigInt>)
      requires WellFormed(Current()) && WellFormed(num)
      modifies this
      ensures r.Failure? <==> ToInt(num) == 0
      ensures r.Failure? ==> r.error == DivisionByZero && Current() == old(Current())
      ensures r.Success? ==> r.value == Current() && Canonical(Current())
      ensures r.Success? ==> ToInt(Current()) == TruncMod(ToInt(old(Current())), ToInt(num))
    {
      var remainder := Mod(Current(), num);
      if remainder.Failure? {
        return remainder;
      }
      DivModIdentity(Current(), num);
      var v := Assign(remainder.value);
      r := Success(v);
    }

    // -------------------------------------------------------------------------
    // Compound assignment with a long long: *this op BigInt(num)
    // -------------------------------------------------------------------------

    method AddAssignLong(num: int) returns (r: BigInt)
      requires Canonical(Current()) && IsLongLong(num)
      modifies this
      ensures Canonical(Current()) && r == Current()
      ensures ToInt(Current()) == ToInt(old(Current())) + num
    {
      r := AddAssign(FromLongLong(num));
    }

    method SubAssignLong(num: int) returns (r: BigInt)
      requires Canonical(Current()) && IsLongLong(num)
      modifies this
      ensures Canonical(Current()) && r == Current()
      ensures ToInt(Current()) == ToInt(old(Current())) - num
    {
      r := SubAssign(FromLongLong(num));
    }

    method MulAssignLong(num: int) returns (r: BigInt)
      requires Canonical(Current()) && IsLongLong(num)
      modifies this
      ensures Canonical(Current()) && r == Current()
      ensures ToInt(Current()) == ToInt(old(Current())) * num
    {
      r := MulAssign(FromLongLong(num));
    }

    method DivAssignLong(num: int) returns (r: Result<BigInt>)
      requires WellFormed(Current()) && IsLongLong(num)
      modifies this
      ensures r.Failure? <==> num == 0
      ensures r.Failure? ==> r.error == DivisionByZero && Current() == old(Current())
      ensures r.Success? ==> r.value == Current() && Canonical(Current())
      ensures r.Success? ==> ToInt(Current()) == TruncDiv(ToInt(old(Current())), num)
    {
      r := DivAssign(FromLongLong(num));
    }

    method ModAssignLong(num: int) returns (r: Result<BigInt>)
      requires WellFormed(Current()) && IsLongLong(num)
      modifies this
      ensures r.Failure? <==> num == 0
      ensures r.Failure? ==> r.error == DivisionByZero && Current() == old(Current())
      ensures r.Success? ==> r.value == Current() && Canonical(Current())
      ensures r.Success? ==> ToInt(Current()) == TruncMod(ToInt(old(Current())), num)
    {
      r := ModAssign(FromLongLong(num));
    }

    // -------------------------------------------------------------------------
    // Compound assignment with a string: *this op BigInt(num)
    // -------------------------------------------------------------------------

    method AddAssignStr(num: string) returns (r: Result<BigInt>)
      requires Canonical(Current()) && CanonicalOperand(num)
      modifies this
      ensures r.Failure? <==> !IsValidBigIntString(num)
      ensures r.Failure? ==> r.error == InvalidInput(num) && Current() == old(Current())
      ensures r.Success? ==> Canonical(Current()) && r.value == Current()
      ensures r.Success? ==> ToInt(Current()) == ToInt(old(Current())) + ToInt(FromString(num).value)
    {
      var operand := FromString(num);
      if operand.Failure? {
        return Failure(operand.error);
      }
      var v := AddAssign(operand.value);
      r := Success(v);
    }

    method SubAssignStr(num: string) returns (r: Result<BigInt>)
      requires Canonical(Current()) && CanonicalOperand(num)
      modifies this
      ensures r.Failure? <==> !IsValidBigIntString(num)
      ensures r.Failure? ==> r.error == InvalidInput(num) && Current() == old(Current())
      ensures r.Success? ==> Canonical(Current()) && r.value == Current()
      ensures r.Success? ==> ToInt(Current()) == ToInt(old(Current())) - ToInt(FromString(num).value)
    {
      var operand := FromString(num);
      if operand.Failure? {
        return Failure(operand.error);
      }
      var v := SubAssign(operand.value);
      r := Success(v);
    }

    method MulAssignStr(num: string) returns (r: Result<BigInt>)
      requires Canonical(Current()) && CanonicalOperand(num)
      modifies this
      ensures r.Failure? <==> !IsValidBigIntString(num)
      ensures r.Failure? ==> r.error == InvalidInput(num) && Current() == old(Current())
      ensures r.Success? ==> Canonical(Current()) && r.value == Current()
      ensures r.Success? ==> ToInt(Current()) == ToInt(old(Current())) * ToInt(FromString(num).value)
    {
      var operand := FromString(num);
      if operand.Failure? {
        return Failure(operand.error);
      }
      var v := MulAssign(operand.value);
      r := Success(v);
    }

    method DivAssignStr(num: string) returns (r: Result<BigInt>)
      requires WellFormed(Current())
      modifies this
      ensures !IsValidBigIntString(num) ==> r == Failure(InvalidInput(num))
      ensures IsValidBigIntString(num) && ToInt(FromString(num).value) == 0 ==> r == Failure(DivisionByZero)
      ensures r.Failure? ==> Current() == old(Current())
      ensures r.Success? ==> IsValidBigIntString(num) && r.value == Current() && Canonical(Current())
      ensures r.Success? ==> ToInt(Current()) == TruncDiv(ToInt(old(Current())), ToInt(FromString(num).value))
    {
      var operand := FromString(num);
      if operand.Failure? {
        return Failure(operand.error);
      }
      r := DivAssign(operand.value);
    }

    method ModAssignStr(num: string) returns (r: Result<BigInt>)
      requires WellFormed(Current())
      modifies this
      ensures !IsValidBigIntString(num) ==> r == Failure(InvalidInput(num))
      ensures IsValidBigIntString(num) && ToInt(FromString(num).value) == 0 ==> r == Failure(DivisionByZero)
      ensures r.Failure? ==> Current() == old(Current())
      ensures r.Success? ==> IsValidBigIntString(num) && r.value == Current() && Canonical(Current())
      ensures r.Success? ==> ToInt(Current()) == TruncMod(ToInt(old(Current())), ToInt(FromString(num).value))
    {
      var operand := FromString(num);
      if operand.Failure? {
        return Failure(operand.error);
      }
      r := ModAssign(operand.value);
    }

    // -------------------------------------------------------------------------
    // ++ and --
    // -------------------------------------------------------------------------

    /** ++x: adds 1 and returns the new value. */
    method PreIncrement() returns (r: BigInt)
      requires Canonical(Current())
      modifies this
      ensures Canonical(Current()) && r == Current()
      ensures ToInt(Current()) == ToInt(old(Current())) + 1
    {
      r := AddAssignLong(1);
    }

    /** --x: subtracts 1 and returns the new value. */
    method PreDecrement() returns (r: BigInt)
      requires Canonical(Current())
      modifies this
      ensures Canonical(Current()) && r == Current()
      ensures ToInt(Current()) == ToInt(old(Current())) - 1
    {
      r := SubAssignLong(1);
    }

    /** x++: adds 1 and returns the value from before. */
    method PostIncrement() returns (r: BigInt)
      requires Canonical(Current())
      modifies this
      ensures r == old(Current()) && Canonical(Current())
      ensures ToInt(Current()) == ToInt(r) + 1
    {
      r := Current();
      var _ := AddAssignLong(1);
    }

    /** x--: subtracts 1 and returns the value from before. */
    method PostDecrement() returns (r: BigInt)
      requires Canonical(Current())
      modifies this
      ensures r == old(Current()) && Canonical(Current())
      ensures ToInt(Current()) == ToInt(r) - 1
    {
      r := Current();
      var _ := SubAssignLong(1);
    }
  }

  /** Incrementing and then decrementing gives back the very same fields. */
  method IncrementThenDecrement(x: BigIntVar)
    requires Canonical(x.Current())
    modifies x
    ensures x.Current() == old(x.Current())
  {
    var _ := x.PreIncrement();
    var _ := x.PreDecrement();
    CanonicalUnique(x.Current(), old(x.Current()));
  }
}
