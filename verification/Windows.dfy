/** A byte stream cut into windows. */
module Windows {

  function Concat(windows: seq<string>): string {
    if windows == [] then "" else Concat(windows[..|windows| - 1]) + windows[|windows| - 1]
  }

  lemma {:induction false} ConcatSplit(windows: seq<string>, n: nat)
    requires n <= |windows|
    ensures Concat(windows) == Concat(windows[..n]) + Concat(windows[n..])
  {
    if n == |windows| {
      assert windows[..n] == windows;
    } else {
      var init, last := windows[..|windows| - 1], windows[|windows| - 1];
      ConcatSplit(init, n);
      assert init[..n] == windows[..n];
      assert windows[n..][..|windows| - 1 - n] == init[n..];
      assert Concat(windows[n..]) == Concat(init[n..]) + last;
    }
  }
}
