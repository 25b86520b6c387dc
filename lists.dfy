/** Index-based list edits shared by the UI components. */
module Lists {

  /**
   * `list.filter((_, i) => i !== index)`: the entry at `index` goes, the rest
   * keep their order; an index outside the list removes nothing.
   */
  function RemoveAt<T>(list: seq<T>, index: int): (r: seq<T>)
    ensures 0 <= index < |list| ==> r == list[..index] + list[index + 1..]
    ensures !(0 <= index < |list|) ==> r == list
    decreases |list|
  {
    if list == [] then []
    else
      var rest := RemoveAt(list[1..], index - 1);
      assert list == [list[0]] + list[1..];
      if index == 0 then
        assert list[..0] + list[1..] == list[1..];
        rest
      else
        assert 0 < index < |list| ==> rest == list[1..][..index - 1] + list[1..][index..];
        assert 0 < index < |list| ==> list[1..][..index - 1] == list[1..index] && list[1..][index..] == list[index + 1..];
        assert 0 < index < |list| ==> list[..index] == [list[0]] + list[1..index];
        [list[0]] + rest
  }

  /** The positions of `list` with `e` inserted at `k`. */
  lemma InsertedAt<T>(list: seq<T>, e: T, k: nat)
    requires k <= |list|
    ensures var r := list[..k] + [e] + list[k..];
      |r| == |list| + 1 &&
      forall i :: 0 <= i < |r| ==> r[i] == if i < k then list[i] else if i == k then e else list[i - 1]
  {
  }

  /** The positions of `list` with the entry at `k` left out. */
  lemma RemovedAt<T>(list: seq<T>, k: nat)
    requires k < |list|
    ensures var r := list[..k] + list[k + 1..];
      |r| == |list| - 1 &&
      forall i :: 0 <= i < |r| ==> r[i] == if i < k then list[i] else list[i + 1]
  {
  }
}
