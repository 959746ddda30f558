/**
 * The unit choice of `byte_notation` (hash.py:386-411): the first decimal
 * unit, of bytes, kilobytes, megabytes, gigabytes and terabytes, in which
 * the size is below 1000. The formatting of the scaled number is not part of
 * this model; only the unit and its label are.
 */
module Notation {
  import opened Wrappers

  /** The keys of `size_dict`, in its insertion order. */
  const Keys: seq<nat> := [1, 1000, 1000000, 1000000000, 1000000000000]

  /** The label of the unit at `index`: single, double or full word as `ntn` is 0, 1 or 2. */
  function Label(index: nat, ntn: nat): (r: string)
    requires index < 5 && ntn <= 2
    // hash.py:402-406: a single letter, the letter with "B" (bytes being "B"), or the word ending in "bytes"
    ensures ntn == 0 ==> |r| == 1
    ensures ntn == 1 ==> 1 <= |r| <= 2 && r[|r| - 1] == 'B'
    ensures ntn == 2 ==> |r| >= 5 && r[|r| - 5..] == "bytes"
    ensures ntn < 2 && index > 0 ==> r[0] == "kMGT"[index - 1]
    ensures ntn == 2 && index > 0 ==> |r| == 9 && r[0] == "kmgt"[index - 1]
    ensures index == 0 ==> r == (if ntn < 2 then "B" else "bytes")
  {
    [["B", "B", "bytes"],
     ["k", "kB", "kilobytes"],
     ["M", "MB", "megabytes"],
     ["G", "GB", "gigabytes"],
     ["T", "TB", "terabytes"]][index][ntn]
  }

  /**
   * The loop over `size_dict` from entry `from` on: the index of the first key
   * with `size / key < 1000`, or None when the loop falls through.
   */
  function FirstFit(size: int, from: nat): (r: Option<nat>)
    requires from <= |Keys|
    decreases |Keys| - from
    ensures r.Some? ==> from <= r.value < |Keys| && size < 1000 * Keys[r.value]
    ensures r.Some? ==> forall j :: from <= j < r.value ==> size >= 1000 * Keys[j]
    ensures r.None? ==> forall j :: from <= j < |Keys| ==> size >= 1000 * Keys[j]
  {
    if from == |Keys| then None
    else if size < 1000 * Keys[from] then Some(from)
    else FirstFit(size, from + 1)
  }

  /**
   * `byte_notation(size, ntn=ntn)` reduced to its unit: the key the size is
   * divided by and the label written after it, or None where the function
   * returns nothing.
   */
  function ByteNotation(size: int, ntn: nat): (r: Option<(nat, string)>)
    requires ntn <= 2
    ensures r.None? <==> size >= 1000000000000000
    ensures r.Some? ==> r.value.0 in Keys && size < 1000 * r.value.0
    ensures r.Some? ==> forall k :: k in Keys && k < r.value.0 ==> size >= 1000 * k
  {
    match FirstFit(size, 0)
    case None => None
    case Some(i) => Some((Keys[i], Label(i, ntn)))
  }

  /**
   * The chosen unit never makes a size look smaller than 1 in it: above the
   * byte unit the size is at least the key, so the printed value is in [1, 1000).
   */
  lemma ScaledValueInRange(size: int, ntn: nat)
    requires ntn <= 2 && ByteNotation(size, ntn).Some?
    ensures var key := ByteNotation(size, ntn).value.0;
      && size < 1000 * key
      && (key > 1 ==> key <= size)
  {
    var key := ByteNotation(size, ntn).value.0;
    if key > 1 {
      var i :| 0 <= i < |Keys| && Keys[i] == key;
      assert i > 0;
      assert Keys[i] == 1000 * Keys[i - 1];
    }
  }

  /** A larger size never gets a smaller unit. */
  lemma UnitMonotone(a: int, b: int, ntn: nat)
    requires ntn <= 2 && a <= b && ByteNotation(b, ntn).Some?
    ensures ByteNotation(a, ntn).Some? && ByteNotation(a, ntn).value.0 <= ByteNotation(b, ntn).value.0
  {
  }
}
