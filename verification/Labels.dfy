/**
 * The label search of ENUM and SET values: a label is taken for a match when the
 * value begins with it.
 */
module Labels {
  import opened Bytes

  type Label = seq<Byte>

  /** The first label that the value begins with, or the number of labels. */
  function FirstPrefix(labels: seq<Label>, value: Label): (i: nat)
    ensures i <= |labels|
  {
    if labels == [] || labels[0] <= value then 0 else 1 + FirstPrefix(labels[1..], value)
  }

  /** The loop of `convert_binlog_enum`; without a match nothing is emitted. */
  method FindLabel(labels: seq<Label>, value: Label) returns (found: bool, index: nat)
    ensures index == FirstPrefix(labels, value) && (found <==> index < |labels|)
  {
    assert labels[0..] == labels;
    for i := 0 to |labels|
      invariant FirstPrefix(labels, value) == i + FirstPrefix(labels[i..], value)
    {
      assert labels[i..][0] == labels[i] && labels[i..][1..] == labels[i + 1..];
      if labels[i] <= value {
        return true, i;
      }
    }
    return false, |labels|;
  }

  /** The search finds position `k` exactly if the value begins with that label and with none before it. */
  lemma {:induction false} FoundIff(labels: seq<Label>, value: Label, k: nat)
    requires k < |labels|
    ensures FirstPrefix(labels, value) == k
       <==> labels[k] <= value && forall j :: 0 <= j < k ==> !(labels[j] <= value)
    decreases |labels|
  {
    if k > 0 {
      var rest := labels[1..];
      FoundIff(rest, value, k - 1);
      assert forall j :: 0 < j < |labels| ==> labels[j] == rest[j - 1];
      if labels[0] <= value {
        assert FirstPrefix(labels, value) == 0;
      } else {
        assert forall j :: 0 <= j < k - 1 ==> rest[j] == labels[j + 1];
      }
    }
  }

  /** An ENUM member is stored as itself if and only if no earlier label is a prefix of it. */
  lemma EnumStoredIff(labels: seq<Label>, k: nat)
    requires k < |labels|
    ensures FirstPrefix(labels, labels[k]) == k <==> forall j :: 0 <= j < k ==> !(labels[j] <= labels[k])
  {
    FoundIff(labels, labels[k], k);
  }

  /** The member 'ab' of ENUM('a', 'ab') is stored as 'a'. */
  lemma LongerLabelIsLost()
    ensures FirstPrefix([[97], [97, 98]], [97, 98]) == 0
  {
    assert [97] <= [97, 98];
  }

  ghost predicate Begins(l: Label, values: seq<Label>) {
    exists j :: 0 <= j < |values| && l <= values[j]
  }

  /** The inner loop of `convert_binlog_set`, over the parts of the value. */
  method FindValue(l: Label, values: seq<Label>) returns (hit: bool)
    ensures hit <==> Begins(l, values)
  {
    for j := 0 to |values|
      invariant forall k :: 0 <= k < j ==> !(l <= values[k])
    {
      if l <= values[j] {
        return true;
      }
    }
    return false;
  }

  /** The outer loop, over the labels. */
  method FindLabels(labels: seq<Label>, values: seq<Label>) returns (bits: seq<bool>)
    ensures |bits| == |labels|
    ensures forall i :: 0 <= i < |labels| ==> (bits[i] <==> Begins(labels[i], values))
  {
    bits := [];
    for i := 0 to |labels|
      invariant |bits| == i
      invariant forall k :: 0 <= k < i ==> (bits[k] <==> Begins(labels[k], values))
    {
      var hit := FindValue(labels[i], values);
      bits := bits + [hit];
    }
  }

  /** What the bits of a SET value should say. */
  predicate RightBits(labels: seq<Label>, values: seq<Label>, bits: seq<bool>)
    requires |bits| == |labels|
  {
    forall i :: 0 <= i < |labels| ==> (bits[i] <==> labels[i] in values)
  }

  /** The bits found are the members of the value if and only if no label outside the value is a prefix of a member. */
  lemma SetStoredIff(labels: seq<Label>, values: seq<Label>, bits: seq<bool>)
    requires |bits| == |labels|
    requires forall i :: 0 <= i < |labels| ==> (bits[i] <==> Begins(labels[i], values))
    ensures RightBits(labels, values, bits)
       <==> forall i :: 0 <= i < |labels| && labels[i] !in values ==> !Begins(labels[i], values)
  {
    forall i | 0 <= i < |labels| && labels[i] in values
      ensures bits[i]
    {
      var j :| 0 <= j < |values| && values[j] == labels[i];
      assert labels[i] <= values[j];
    }
  }
}
