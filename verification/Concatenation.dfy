/** Byte strings joined end to end. */
module Concatenation {
  import opened Bits

  function Concat(parts: seq<seq<byte>>): seq<byte> {
    if |parts| == 0 then [] else Concat(parts[..|parts| - 1]) + parts[|parts| - 1]
  }

  lemma ConcatSnoc(parts: seq<seq<byte>>, last: seq<byte>)
    ensures Concat(parts + [last]) == Concat(parts) + last
  {
    assert (parts + [last])[..|parts|] == parts;
  }

  lemma {:induction false} ConcatFront(parts: seq<seq<byte>>)
    requires |parts| > 0
    ensures Concat(parts) == parts[0] + Concat(parts[1..])
  {
    if |parts| == 1 {
      assert parts[..0] == [] && parts[1..] == [];
    } else {
      var k := |parts| - 1;
      ConcatFront(parts[..k]);
      assert parts[..k][1..] == parts[1..][..k - 1];
      assert parts[1..][k - 1] == parts[k];
    }
  }

  lemma {:induction false} ConcatAppend(a: seq<seq<byte>>, b: seq<seq<byte>>)
    ensures Concat(a + b) == Concat(a) + Concat(b)
  {
    if b == [] {
      assert a + b == a;
    } else {
      var k := |b| - 1;
      ConcatAppend(a, b[..k]);
      assert (a + b)[..|a + b| - 1] == a + b[..k];
    }
  }

  lemma ConcatOne(a: seq<byte>)
    ensures Concat([a]) == a
  {
    assert [a][..0] == [];
  }

  /** The serialized forms of a list of values, joined. */
  function Serialized<T>(values: seq<T>, form: T -> seq<byte>): seq<byte> {
    Concat(Forms(values, form))
  }

  function Forms<T>(values: seq<T>, form: T -> seq<byte>): (r: seq<seq<byte>>)
    ensures |r| == |values|
  {
    seq(|values|, i requires 0 <= i < |values| => form(values[i]))
  }

  lemma SerializedNone<T>(form: T -> seq<byte>)
    ensures Serialized([], form) == []
  {}

  lemma SerializedSnoc<T>(values: seq<T>, last: T, form: T -> seq<byte>)
    ensures Serialized(values + [last], form) == Serialized(values, form) + form(last)
  {
    assert Forms(values + [last], form) == Forms(values, form) + [form(last)];
    ConcatSnoc(Forms(values, form), form(last));
  }

  lemma SerializedFront<T>(values: seq<T>, form: T -> seq<byte>)
    requires |values| > 0
    ensures Serialized(values, form) == form(values[0]) + Serialized(values[1..], form)
  {
    ConcatFront(Forms(values, form));
    assert Forms(values, form)[1..] == Forms(values[1..], form);
  }
}
