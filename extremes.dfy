/**
 * Python's `max(items, key=k)` and `min(items, key=k)` scan left to right and
 * replace the current best only on a strictly better key, so they return the
 * FIRST item with the extreme key.  Here the keys are given as a sequence and
 * the functions return the index of that first extreme item; `MaxOf` and
 * `MinOf` are the plain extreme values (`max(values)`, `min(values)`).
 */
module Extremes {

  /** Index of the first item whose key is largest. */
  function FirstMaxIndex(keys: seq<real>): (i: nat)
    requires |keys| > 0
    ensures i < |keys|
    ensures forall j :: 0 <= j < |keys| ==> keys[j] <= keys[i]
    ensures forall j :: 0 <= j < i ==> keys[j] < keys[i]
  {
    if |keys| == 1 then 0
    else
      var best := FirstMaxIndex(keys[..|keys| - 1]);
      if keys[|keys| - 1] > keys[best] then |keys| - 1 else best
  }

  /** Index of the first item whose key is smallest. */
  function FirstMinIndex(keys: seq<real>): (i: nat)
    requires |keys| > 0
    ensures i < |keys|
    ensures forall j :: 0 <= j < |keys| ==> keys[i] <= keys[j]
    ensures forall j :: 0 <= j < i ==> keys[i] < keys[j]
  {
    if |keys| == 1 then 0
    else
      var best := FirstMinIndex(keys[..|keys| - 1]);
      if keys[|keys| - 1] < keys[best] then |keys| - 1 else best
  }

  /** `max(values)`. */
  function MaxOf(keys: seq<real>): (m: real)
    requires |keys| > 0
    ensures m in keys
    ensures forall j :: 0 <= j < |keys| ==> keys[j] <= m
  {
    if |keys| == 1 then keys[0]
    else
      var m := MaxOf(keys[..|keys| - 1]);
      if keys[|keys| - 1] > m then keys[|keys| - 1] else m
  }

  /** `min(values)`. */
  function MinOf(keys: seq<real>): (m: real)
    requires |keys| > 0
    ensures m in keys
    ensures forall j :: 0 <= j < |keys| ==> m <= keys[j]
  {
    if |keys| == 1 then keys[0]
    else
      var m := MinOf(keys[..|keys| - 1]);
      if keys[|keys| - 1] < m then keys[|keys| - 1] else m
  }
}
