/**
 * The fees service: rows keep `due == amount - paid` through creation and
 * partial update. Amounts are exact `real`s; `payment_date` is an opaque
 * clock reading passed in by the caller.
 */
module FeesService {

  import opened Wrappers
  import Lists
  import opened Models

  /** The invariant of a fee row: what is due is the amount minus what was paid. */
  predicate Balanced(f: Fee) {
    f.due == f.amount - f.paid
  }

  /** The row `create_fee` inserts (no payment date yet). */
  function NewFee(id: int, studentId: int, amount: real, paid: real, remark: Option<string>): (f: Fee)
    ensures Balanced(f)
    ensures f.id == id && f.studentId == studentId && f.amount == amount && f.paid == paid && f.remark == remark
    ensures f.paidAt.None?
    ensures paid >= 0.0 ==> f.due <= f.amount
    ensures f.due == 0.0 <==> paid == amount
  {
    Fee(id, studentId, amount, paid, amount - paid, None, remark)
  }

  /**
   * `update_fee` on a found row: a given paid amount replaces the old one,
   * recomputes the due amount from the unchanged total and stamps the
   * payment date; a given remark replaces the old one.
   */
  function Updated(f: Fee, paid: Option<real>, remark: Option<string>, now: int): (g: Fee)
    ensures g.id == f.id && g.studentId == f.studentId && g.amount == f.amount
    ensures paid.Some? ==> g.paid == paid.value && Balanced(g) && g.paidAt == Some(now)
    ensures paid.None? ==> g.paid == f.paid && g.due == f.due && g.paidAt == f.paidAt
    ensures remark.Some? ==> g.remark == remark
    ensures remark.None? ==> g.remark == f.remark
  {
    var f1 := if paid.Some? then f.(paid := paid.value, due := f.amount - paid.value, paidAt := Some(now)) else f;
    if remark.Some? then f1.(remark := remark) else f1
  }

  /** Updating keeps the invariant, whether or not a paid amount is given. */
  lemma UpdatePreservesBalance(f: Fee, paid: Option<real>, remark: Option<string>, now: int)
    requires Balanced(f)
    ensures Balanced(Updated(f, paid, remark, now))
  {
  }

  /** Repeating the same update changes nothing more. */
  lemma UpdateIdempotent(f: Fee, paid: Option<real>, remark: Option<string>, now: int)
    ensures Updated(Updated(f, paid, remark, now), paid, remark, now) == Updated(f, paid, remark, now)
  {
  }

  /** An update with neither field leaves the row as it was. */
  lemma EmptyUpdate(f: Fee, now: int)
    ensures Updated(f, None, None, now) == f
  {
  }

  /**
   * The documented example: amount 10000 with 3000 paid leaves 7000 due,
   * and paying 8000 in total leaves 2000 due.
   */
  lemma DocumentedExample(id: int, studentId: int, now: int)
    ensures NewFee(id, studentId, 10000.0, 3000.0, None).due == 7000.0
    ensures Updated(NewFee(id, studentId, 10000.0, 3000.0, None), Some(8000.0), None, now).due == 2000.0
  {
  }

  /** The position of the fee with this primary key. */
  function IndexOfFee(fees: seq<Fee>, id: int): (r: Option<nat>)
    ensures r.Some? ==> r.value < |fees| && fees[r.value].id == id
    ensures r.None? ==> forall i :: 0 <= i < |fees| ==> fees[i].id != id
  {
    Lists.FindIndex(fees, (f: Fee) => f.id == id)
  }

  /** `get_fee`. */
  function GetFee(fees: seq<Fee>, id: int): (r: Option<Fee>)
    ensures r.Some? ==> r.value in fees && r.value.id == id
    ensures r.None? <==> forall i :: 0 <= i < |fees| ==> fees[i].id != id
  {
    match IndexOfFee(fees, id)
    case None => None
    case Some(k) => Some(fees[k])
  }

  function OfStudent(studentId: int): Fee -> bool {
    (f: Fee) => f.studentId == studentId
  }

  function Reversed<T>(s: seq<T>): (r: seq<T>)
    ensures |r| == |s| && forall i :: 0 <= i < |s| ==> r[i] == s[|s| - 1 - i]
  {
    if s == [] then [] else [s[|s| - 1]] + Reversed(s[..|s| - 1])
  }

  /**
   * `get_student_fees`: the student's rows, newest first. Rows are inserted
   * in creation order, so newest first is the reverse of table order.
   */
  function StudentFees(fees: seq<Fee>, studentId: int): (r: seq<Fee>)
    ensures forall f :: f in r <==> f in fees && f.studentId == studentId
    ensures Reversed(r) == Lists.Filter(fees, OfStudent(studentId))
  {
    var mine := Lists.Filter(fees, OfStudent(studentId));
    assert forall f :: f in Reversed(mine) <==> f in mine by {
      forall f | f in mine ensures f in Reversed(mine) {
        var i := Lists.IndexOf(mine, f);
        assert Reversed(mine)[|mine| - 1 - i] == f;
      }
    }
    ReversedTwice(mine);
    Reversed(mine)
  }

  /** Reversing twice gives the sequence back. */
  lemma ReversedTwice<T>(s: seq<T>)
    ensures Reversed(Reversed(s)) == s
  {
  }

  /** Primary keys below `next`, distinct, and every row balanced. */
  predicate Consistent(fees: seq<Fee>, next: int) {
    (forall i :: 0 <= i < |fees| ==> fees[i].id < next && Balanced(fees[i]))
    && forall i, j :: 0 <= i < j < |fees| ==> fees[i].id != fees[j].id
  }

  lemma AppendFee(fees: seq<Fee>, next: int, row: Fee)
    requires Consistent(fees, next) && row.id == next && Balanced(row)
    ensures Consistent(fees + [row], next + 1)
  {
  }

  lemma ReplaceFee(fees: seq<Fee>, next: int, k: nat, row: Fee)
    requires Consistent(fees, next) && k < |fees| && row.id == fees[k].id && Balanced(row)
    ensures Consistent(fees[k := row], next)
  {
  }

  /** The `fees` table. */
  class FeeStore {
    var fees: seq<Fee>
    /** The next value of the primary-key sequence. */
    var nextId: int

    predicate Valid()
      reads this
    {
      nextId >= 1 && Consistent(fees, nextId)
    }

    constructor ()
      ensures Valid() && fees == [] && nextId == 1
    {
      fees := [];
      nextId := 1;
    }

    /** `create_fee`: the row is appended under the next key, balanced. */
    method CreateFee(studentId: int, amount: real, paid: real, remark: Option<string>) returns (f: Fee)
      requires Valid()
      modifies this
      ensures Valid()
      ensures f == NewFee(old(nextId), studentId, amount, paid, remark)
      ensures fees == old(fees) + [f] && nextId == old(nextId) + 1
      ensures forall i :: 0 <= i < |old(fees)| ==> old(fees)[i].id != f.id
    {
      f := NewFee(nextId, studentId, amount, paid, remark);
      AppendFee(fees, nextId, f);
      fees := fees + [f];
      nextId := nextId + 1;
    }

    /** `update_fee`: `None` for an unknown id; otherwise the row is updated in place. */
    method UpdateFee(id: int, paid: Option<real>, remark: Option<string>, now: int) returns (r: Option<Fee>)
      requires Valid()
      modifies this
      ensures Valid() && nextId == old(nextId)
      ensures IndexOfFee(old(fees), id).None? ==> r.None? && fees == old(fees)
      ensures IndexOfFee(old(fees), id).Some? ==>
        var k := IndexOfFee(old(fees), id).value;
        r == Some(Updated(old(fees)[k], paid, remark, now)) && fees == old(fees)[k := r.value]
    {
      var k := IndexOfFee(fees, id);
      if k.None? {
        return None;
      }
      var fee := fees[k.value];
      if paid.Some? {
        fee := fee.(paid := paid.value, due := fee.amount - paid.value, paidAt := Some(now));
      }
      if remark.Some? {
        fee := fee.(remark := remark);
      }
      UpdatePreservesBalance(fees[k.value], paid, remark, now);
      ReplaceFee(fees, nextId, k.value, fee);
      fees := fees[k.value := fee];
      r := Some(fee);
    }

    /** `delete_fee`: true exactly when the row existed; afterwards the id is gone. */
    method DeleteFee(id: int) returns (deleted: bool)
      requires Valid()
      modifies this
      ensures Valid() && nextId == old(nextId)
      ensures deleted <==> IndexOfFee(old(fees), id).Some?
      ensures !deleted ==> fees == old(fees)
      ensures deleted ==> var k := IndexOfFee(old(fees), id).value; fees == old(fees)[..k] + old(fees)[k + 1..]
      ensures forall i :: 0 <= i < |fees| ==> fees[i].id != id
    {
      var k := IndexOfFee(fees, id);
      if k.None? {
        return false;
      }
      fees := fees[..k.value] + fees[k.value + 1..];
      deleted := true;
    }
  }
}
