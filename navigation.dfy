/** Page navigation: the arithmetic of the Left and Right arrow keys on the
    current page index, held against the number of loaded pages. */
module Navigation {

  /** The two bound keys. */
  datatype Key = Left | Right

  /** The page index after a Left key: one less, except at the first page. */
  function PrevIndex(page: nat): (r: nat)
    ensures r <= page && page - r <= 1
    ensures r == page <==> page == 0
  {
    if page > 0 then page - 1 else page
  }

  /** The page index after a Right key with `count` pages loaded: one more,
      except on the last page (when no pages are loaded, len - 1 is -1 and
      the index never moves). */
  function NextIndex(page: nat, count: nat): (r: nat)
    ensures page <= r <= page + 1
    ensures r == page <==> page as int >= count as int - 1
    ensures page < count ==> r < count
  {
    if page < count as int - 1 then page + 1 else page
  }

  /** The index after one key. */
  function Step(page: nat, count: nat, key: Key): nat
  {
    match key
    case Left => PrevIndex(page)
    case Right => NextIndex(page, count)
  }

  /** The index after a sequence of keys, pressed in order. */
  function Navigate(page: nat, count: nat, keys: seq<Key>): nat
    decreases |keys|
  {
    if keys == [] then page else Navigate(Step(page, count, keys[0]), count, keys[1..])
  }

  /** Any sequence of key presses keeps a valid index valid. */
  lemma {:induction false} NavigateStaysOnPages(page: nat, count: nat, keys: seq<Key>)
    requires page < count
    ensures Navigate(page, count, keys) < count
    decreases |keys|
  {
    if keys != [] {
      NavigateStaysOnPages(Step(page, count, keys[0]), count, keys[1..]);
    }
  }

  /** The key sequence of `k` presses of one key. */
  function Repeat(key: Key, k: nat): (keys: seq<Key>)
    ensures |keys| == k
    ensures forall i :: 0 <= i < k ==> keys[i] == key
  {
    if k == 0 then [] else [key] + Repeat(key, k - 1)
  }

  /** Pressing Right `k` times moves `k` pages, stopping on the last page. */
  lemma {:induction false} RightRepeated(page: nat, count: nat, k: nat)
    requires page < count
    ensures Navigate(page, count, Repeat(Right, k)) == if page + k < count then page + k else count - 1
    decreases k
  {
    if k > 0 {
      var keys := Repeat(Right, k);
      assert keys[0] == Right && keys[1..] == Repeat(Right, k - 1);
      RightRepeated(NextIndex(page, count), count, k - 1);
    }
  }

  /** Pressing Left `k` times moves `k` pages back, stopping on the first page. */
  lemma {:induction false} LeftRepeated(page: nat, count: nat, k: nat)
    ensures Navigate(page, count, Repeat(Left, k)) == if k <= page then page - k else 0
    decreases k
  {
    if k > 0 {
      var keys := Repeat(Left, k);
      assert keys[0] == Left && keys[1..] == Repeat(Left, k - 1);
      LeftRepeated(PrevIndex(page), count, k - 1);
    }
  }

  /** Right then Left returns to the same page, unless on the last page. */
  lemma NextThenPrev(page: nat, count: nat)
    requires page + 1 < count
    ensures Navigate(page, count, [Right, Left]) == page
  {
    assert [Right, Left][1..] == [Left];
  }

  /** Left then Right returns to the same page, unless on the first page. */
  lemma PrevThenNext(page: nat, count: nat)
    requires 0 < page < count
    ensures Navigate(page, count, [Left, Right]) == page
  {
    assert [Left, Right][1..] == [Right];
  }
}
