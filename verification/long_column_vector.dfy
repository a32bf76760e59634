/**
 * The nullable integer column batch: a value array, a parallel null-flag array, and the two
 * flags that say whether the null flags matter (noNulls) and whether slot 0 stands for
 * every row (isRepeating).
 */
module ColumnVectors {
  import opened Wrappers

  /** The value a null integer slot holds. */
  const NULL_VALUE: int := 1

  /**
   * The rows an operation touches: the first size entries of the selection when it is in
   * use, otherwise the prefix [0, size).
   */
  ghost predicate Selected(selectedInUse: bool, sel: seq<int>, size: nat, k: int)
    requires selectedInUse ==> size <= |sel|
  {
    if selectedInUse then k in sel[..size] else 0 <= k < size
  }

  /** Every selected row indexes both arrays of a given length. */
  ghost predicate SelectionFits(selectedInUse: bool, sel: seq<int>, size: nat, len: int)
  {
    if selectedInUse then size <= |sel| && forall j :: 0 <= j < size ==> 0 <= sel[j] < len
    else size <= len
  }

  class LongColumnVector {
    var vector: array<int>
    var isNull: array<bool>
    var noNulls: bool
    var isRepeating: bool

    /** A batch of len rows, all zero, none null. */
    constructor (len: nat)
      ensures fresh(vector) && fresh(isNull)
      ensures vector.Length == len && isNull.Length == len
      ensures forall k :: 0 <= k < len ==> vector[k] == 0 && !isNull[k]
      ensures noNulls && !isRepeating
    {
      vector := new int[len](_ => 0);
      isNull := new bool[len](_ => false);
      noNulls := true;
      isRepeating := false;
    }

    /** The slot that holds row k: slot 0 stands for every row of a repeating batch. */
    ghost function Slot(k: int): int
      reads this
    {
      if isRepeating then 0 else k
    }

    /** The value stored for row k, read through the repeating flag. */
    ghost function Value(k: int): int
      reads this, vector
      requires 0 <= Slot(k) < vector.Length
    {
      vector[Slot(k)]
    }

    /** The logical content of row k: None for a null row, read through both flags. */
    ghost function Get(k: int): Option<int>
      reads this, vector, isNull
      requires 0 <= Slot(k) < vector.Length && Slot(k) < isNull.Length
    {
      if !noNulls && isNull[Slot(k)] then None else Some(vector[Slot(k)])
    }

    /** Makes every row hold value. */
    method Fill(value: int)
      requires vector.Length > 0
      modifies this, vector
      ensures vector == old(vector) && isNull == old(isNull) && isNull[..] == old(isNull[..])
      ensures noNulls && isRepeating
      ensures vector[..] == old(vector[..])[0 := value]
      ensures forall k :: 0 <= k < vector.Length && k < isNull.Length ==> Get(k) == Some(value)
    {
      noNulls := true;
      isRepeating := true;
      vector[0] := value;
    }

    /** Makes every row null. */
    method FillWithNulls()
      requires vector.Length > 0 && isNull.Length > 0
      modifies this, vector, isNull
      ensures vector == old(vector) && isNull == old(isNull)
      ensures !noNulls && isRepeating
      ensures vector[..] == old(vector[..])[0 := NULL_VALUE]
      ensures isNull[..] == old(isNull[..])[0 := true]
      ensures forall k :: 0 <= k < vector.Length && k < isNull.Length ==> Get(k) == None
    {
      noNulls := false;
      isRepeating := true;
      vector[0] := NULL_VALUE;
      isNull[0] := true;
    }

    /**
     * Copies the selected rows into output: slot 0 alone for a repeating batch, otherwise
     * the selected values, and their null flags only when this batch has nulls.
     */
    method CopySelected(selectedInUse: bool, sel: seq<int>, size: nat, output: LongColumnVector)
      requires output != this
      requires isRepeating ==>
        vector.Length > 0 && isNull.Length > 0 && output.vector.Length > 0 && output.isNull.Length > 0
      requires !isRepeating ==>
        && SelectionFits(selectedInUse, sel, size, vector.Length)
        && SelectionFits(selectedInUse, sel, size, output.vector.Length)
        && (!noNulls ==> SelectionFits(selectedInUse, sel, size, isNull.Length)
                         && SelectionFits(selectedInUse, sel, size, output.isNull.Length))
      modifies output, output.vector, output.isNull
      ensures output.vector == old(output.vector) && output.isNull == old(output.isNull)
      ensures output.noNulls == old(noNulls) && output.isRepeating == old(isRepeating)
      ensures old(isRepeating) ==>
        && output.vector[..] == old(output.vector[..])[0 := old(vector[0])]
        && output.isNull[..] == old(output.isNull[..])[0 := old(isNull[0])]
      ensures !old(isRepeating) ==> forall k :: 0 <= k < output.vector.Length ==>
        output.vector[k] == if Selected(selectedInUse, sel, size, k) then old(vector[k]) else old(output.vector[k])
      ensures !old(isRepeating) ==> forall k :: 0 <= k < output.isNull.Length ==>
        output.isNull[k] == if !old(noNulls) && Selected(selectedInUse, sel, size, k) then old(isNull[k])
                            else old(output.isNull[k])
      // every selected row reads the same in the copy as in the original
      ensures forall k :: 0 <= k < vector.Length && k < isNull.Length && 0 <= k < output.vector.Length
                          && k < output.isNull.Length && (old(isRepeating) || Selected(selectedInUse, sel, size, k))
                       ==> output.Get(k) == old(Get(k))
    {
      output.noNulls := noNulls;
      output.isRepeating := false;
      if isRepeating {
        output.vector[0] := vector[0];
        output.isNull[0] := isNull[0];
        output.isRepeating := true;
        return;
      }
      CopyValues(selectedInUse, sel, size, output.vector);
      if !noNulls {
        CopyNulls(selectedInUse, sel, size, output.isNull);
      }
    }

    /** The value half of a non-repeating CopySelected. */
    method CopyValues(selectedInUse: bool, sel: seq<int>, size: nat, target: array<int>)
      requires SelectionFits(selectedInUse, sel, size, vector.Length)
      requires SelectionFits(selectedInUse, sel, size, target.Length)
      modifies target
      ensures vector[..] == old(vector[..])
      ensures forall k :: 0 <= k < target.Length ==>
        target[k] == if Selected(selectedInUse, sel, size, k) then old(vector[k]) else old(target[k])
    {
      if selectedInUse {
        var j := 0;
        while j < size
          invariant 0 <= j <= size
          invariant vector[..] == old(vector[..])
          invariant forall k :: 0 <= k < target.Length ==>
            target[k] == if k in sel[..j] then old(vector[k]) else old(target[k])
        {
          var i := sel[j];
          target[i] := vector[i];
          assert sel[..j + 1] == sel[..j] + [i];
          j := j + 1;
        }
      } else {
        forall k | 0 <= k < size {
          target[k] := vector[k];
        }
      }
    }

    /** The null-flag half of a non-repeating CopySelected. */
    method CopyNulls(selectedInUse: bool, sel: seq<int>, size: nat, target: array<bool>)
      requires SelectionFits(selectedInUse, sel, size, isNull.Length)
      requires SelectionFits(selectedInUse, sel, size, target.Length)
      modifies target
      ensures isNull[..] == old(isNull[..])
      ensures forall k :: 0 <= k < target.Length ==>
        target[k] == if Selected(selectedInUse, sel, size, k) then old(isNull[k]) else old(target[k])
    {
      if selectedInUse {
        var j := 0;
        while j < size
          invariant 0 <= j <= size
          invariant isNull[..] == old(isNull[..])
          invariant forall k :: 0 <= k < target.Length ==>
            target[k] == if k in sel[..j] then old(isNull[k]) else old(target[k])
        {
          var i := sel[j];
          target[i] := isNull[i];
          assert sel[..j + 1] == sel[..j] + [i];
          j := j + 1;
        }
      } else {
        forall k | 0 <= k < size {
          target[k] := isNull[k];
        }
      }
    }

    /**
     * Spreads a repeating value over the selected rows and clears the repeating flag; the
     * null flags' own flattening is not part of this model.
     */
    method Flatten(selectedInUse: bool, sel: seq<int>, size: nat)
      requires isRepeating ==> vector.Length > 0 && SelectionFits(selectedInUse, sel, size, vector.Length)
      modifies this, vector
      ensures vector == old(vector) && isNull == old(isNull) && noNulls == old(noNulls)
      ensures !old(isRepeating) ==> !isRepeating && vector[..] == old(vector[..])
      ensures old(isRepeating) ==> !isRepeating && forall k :: 0 <= k < vector.Length ==>
        vector[k] == if Selected(selectedInUse, sel, size, k) then old(vector[0]) else old(vector[k])
      // the selected rows keep the values they stood for
      ensures forall k :: 0 <= k < vector.Length && (!old(isRepeating) || Selected(selectedInUse, sel, size, k)) ==>
        Value(k) == old(Value(k))
    {
      if isRepeating {
        isRepeating := false;
        var repeatVal := vector[0];
        if selectedInUse {
          var j := 0;
          while j < size
            invariant 0 <= j <= size
            invariant vector == old(vector) && isNull == old(isNull) && noNulls == old(noNulls) && !isRepeating
            invariant forall k :: 0 <= k < vector.Length ==>
              vector[k] == if k in sel[..j] then repeatVal else old(vector[k])
          {
            var i := sel[j];
            vector[i] := repeatVal;
            assert sel[..j + 1] == sel[..j] + [i];
            j := j + 1;
          }
        } else {
          forall k | 0 <= k < size {
            vector[k] := repeatVal;
          }
        }
      }
    }

    /**
     * Copies row inputElementNum of inputVector (row 0 when it repeats) into row
     * outElementNum: the value and a cleared null flag, or a set null flag.
     */
    method SetElement(outElementNum: int, inputElementNum: int, inputVector: LongColumnVector)
      requires 0 <= outElementNum < vector.Length && outElementNum < isNull.Length
      requires 0 <= inputVector.Slot(inputElementNum) < inputVector.vector.Length
      requires inputVector.Slot(inputElementNum) < inputVector.isNull.Length
      modifies this, vector, isNull
      ensures vector == old(vector) && isNull == old(isNull) && isRepeating == old(isRepeating)
      ensures var i := old(inputVector.Slot(inputElementNum));
        if old(inputVector.noNulls || !inputVector.isNull[i]) then
          && noNulls == old(noNulls)
          && isNull[..] == old(isNull[..])[outElementNum := false]
          && vector[..] == old(vector[..])[outElementNum := old(inputVector.vector[i])]
        else
          && !noNulls
          && isNull[..] == old(isNull[..])[outElementNum := true]
          && vector[..] == old(vector[..])
      // a non-repeating target row now reads as the source row did
      ensures !isRepeating ==> Get(outElementNum) == old(inputVector.Get(inputElementNum))
    {
      var i := inputElementNum;
      if inputVector.isRepeating {
        i := 0;
      }
      if inputVector.noNulls || !inputVector.isNull[i] {
        isNull[outElementNum] := false;
        vector[outElementNum] := inputVector.vector[i];
      } else {
        isNull[outElementNum] := true;
        noNulls := false;
      }
    }

    /**
     * Grows the value array to size rows, keeping slot 0 (repeating) or every old slot
     * when preserveData is set; new slots are zero.
     */
    method EnsureSize(size: int, preserveData: bool)
      requires preserveData && isRepeating && size > vector.Length ==> vector.Length > 0
      modifies this
      ensures isNull == old(isNull) && noNulls == old(noNulls) && isRepeating == old(isRepeating)
      ensures size <= old(vector.Length) ==> vector == old(vector)
      ensures size > old(vector.Length) ==> fresh(vector) && vector.Length == size
      ensures size > old(vector.Length) ==> forall k :: 0 <= k < size ==>
        vector[k] == if preserveData && (if isRepeating then k == 0 else k < old(vector.Length))
                     then old(vector[k]) else 0
      // with preserveData, every old row keeps the value it stood for
      ensures preserveData ==> forall k :: 0 <= k < old(vector.Length) ==> Value(k) == old(Value(k))
    {
      if size > vector.Length {
        var oldArray := vector;
        vector := new int[size](_ => 0);
        if preserveData {
          if isRepeating {
            vector[0] := oldArray[0];
          } else {
            forall k | 0 <= k < oldArray.Length {
              vector[k] := oldArray[k];
            }
          }
        }
      }
    }
  }
}
