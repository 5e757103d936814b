/**
 * A BigInt variable of the limb-vector revision: the object whose `magnitude` and
 * `is_negative` the constructors of include/constructors/constructors.hpp set and
 * the assignments of include/operators/assignment.hpp overwrite.
 */
module LimbVar {
  import opened Wrappers
  import opened Limbs
  import D = DecimalBigInt
  import opened LimbBigInt

  class LimbBigIntVar {
    var magnitude: seq<Limb>
    var isNegative: bool

    /** The number the object currently holds, as a value. */
    function Current(): BigInt
      reads this
    {
      BigInt(magnitude, isNegative)
    }

    /** BigInt(): one zero limb, non-negative. */
    constructor()
      ensures Current() == Default() && ToInt(Current()) == 0
    {
      magnitude := [0];
      isNegative := false;
    }

    /** The copy constructor: the same limbs and the same sign. */
    constructor Copy(num: BigInt)
      ensures Current() == num && Eq(Current(), num)
    {
      magnitude := num.magnitude;
      isNegative := num.isNegative;
    }

    /** BigInt(long long) on a platform whose long long is 64 bits wide: the single limb llabs(num). */
    constructor FromInt64(num: int)
      requires IsInt64Operand(num)
      ensures Current() == LimbBigInt.FromInt64(num)
      ensures Normal(Current()) && ToInt(Current()) == num && |magnitude| == 1
    {
      magnitude := [IntAbs(num)];
      isNegative := num < 0;
    }

    /** BigInt(std::string): invalid text throws invalid_argument, here a failure. */
    static method FromText(num: string) returns (r: Result<LimbBigIntVar>)
      ensures r.Failure? <==> !D.IsValidBigIntString(num)
      ensures r.Failure? ==> r.error == InvalidArgument(InvalidIntegerMessage(num))
      ensures r.Success? ==> fresh(r.value) && r.value.Current() == FromString(num).value
      ensures r.Success? ==> r.value.magnitude == [0] && (r.value.isNegative <==> |num| > 0 && num[0] == '-')
    {
      var parsed := FromString(num);
      if parsed.Failure? {
        return Failure(parsed.error);
      }
      var v := new LimbBigIntVar.Copy(parsed.value);
      r := Success(v);
    }

    /** operator=(BigInt): copies both fields; the receiver then compares equal to num. */
    method Assign(num: BigInt) returns (r: BigInt)
      modifies this
      ensures Current() == num && r == num && Eq(Current(), num)
    {
      magnitude := num.magnitude;
      isNegative := num.isNegative;
      r := Current();
    }

    /** operator=(int64_t): a single limb llabs(num), negative iff num < 0; the receiver then compares equal to num. */
    method AssignInt64(num: int) returns (r: BigInt)
      requires IsInt64Operand(num)
      modifies this
      ensures Current() == LimbBigInt.FromInt64(num) && r == Current()
      ensures ToInt(r) == num && EqInt64(Current(), num)
    {
      magnitude := [IntAbs(num)];
      isNegative := num < 0;
      r := Current();
    }

    /** operator=(std::string): the fields of BigInt(num); invalid text leaves the object as it was. */
    method AssignStr(num: string) returns (r: Result<BigInt>)
      modifies this
      ensures r.Failure? <==> !D.IsValidBigIntString(num)
      ensures r.Failure? ==> r.error == InvalidArgument(InvalidIntegerMessage(num)) && Current() == old(Current())
      ensures r.Success? ==> Current() == FromString(num).value && r.value == Current()
    {
      var temp := FromString(num);
      if temp.Failure? {
        return Failure(temp.error);
      }
      magnitude := temp.value.magnitude;
      isNegative := temp.value.isNegative;
      r := Success(Current());
    }
  }
}
