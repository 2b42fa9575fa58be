/** Go slices: a window on a shared backing array. */
module GoSlice {
  import opened Seqs

  datatype Slice<T> = Slice(arr: array<T>, off: nat, len: nat, cap: nat)

  predicate Fits<T>(s: Slice<T>) {
    s.len <= s.cap && s.off + s.cap <= s.arr.Length
  }

  function View<T>(s: Slice<T>): (v: seq<T>)
    requires Fits(s)
    reads s.arr
    ensures |v| == s.len
  {
    s.arr[s.off..s.off + s.len]
  }

  /** Whether appending `n` elements writes the array in place. */
  predicate InPlace<T>(s: Slice<T>, n: nat) {
    0 < n && s.len + n <= s.cap
  }

  /** A slice of its own array holding `xs`. */
  method FromSeq<T>(xs: seq<T>) returns (s: Slice<T>)
    ensures Fits(s) && View(s) == xs && fresh(s.arr)
  {
    var arr := new T[|xs|](i requires 0 <= i < |xs| => xs[i]);
    s := Slice(arr, 0, |xs|, |xs|);
    assert View(s) == xs;
  }

  /** `s[i] = x`, which every slice of the array sees. */
  method WriteAt<T>(s: Slice<T>, i: nat, x: T)
    requires Fits(s) && i < s.len
    modifies s.arr
    ensures View(s) == old(View(s))[i := x]
  {
    s.arr[s.off + i] := x;
  }

  /** `append(s, xs...)`: in place while the capacity lasts, beyond the elements `s` shows;
      otherwise into a new array, with room to spare as the runtime likes. */
  method Append<T>(s: Slice<T>, xs: seq<T>) returns (r: Slice<T>)
    requires Fits(s)
    modifies if InPlace(s, |xs|) then {s.arr} else {}
    ensures Fits(r) && View(r) == old(View(s)) + xs
    ensures s.len + |xs| <= s.cap ==> r == s.(len := s.len + |xs|)
    ensures s.len + |xs| > s.cap ==> fresh(r.arr)
    ensures View(s) == old(View(s))
  {
    if s.len + |xs| <= s.cap {
      ghost var was := s.arr[..];
      for i := 0 to |xs|
        invariant s.arr[..s.off + s.len] == was[..s.off + s.len]
        invariant s.arr[s.off + s.len..s.off + s.len + i] == xs[..i]
        modifies if InPlace(s, |xs|) then {s.arr} else {}
      {
        s.arr[s.off + s.len + i] := xs[i];
      }
      r := s.(len := s.len + |xs|);
      assert View(r) == s.arr[s.off..s.off + s.len] + s.arr[s.off + s.len..s.off + s.len + |xs|];
      assert s.arr[s.off..s.off + s.len] == was[..s.off + s.len][s.off..];
      assert View(s) == s.arr[..s.off + s.len][s.off..];
      assert was[..s.off + s.len][s.off..] == old(View(s));
    } else {
      var all, spare: nat := View(s) + xs, *;
      var arr := new T[|all| + spare](i requires 0 <= i => if i < |all| then all[i] else xs[0]);
      r := Slice(arr, 0, |all|, |all| + spare);
      assert View(r) == all;
    }
  }

  /** `append(s[:i:i], s[i+1:]...)`: the capped slice leaves nothing to write in place, so
      removal never writes the array it shrinks, and the method needs no `modifies`. */
  method RemoveAt<T>(s: Slice<T>, i: nat) returns (r: Slice<T>)
    requires Fits(s) && i < s.len
    ensures Fits(r) && View(r) == Without(View(s), i)
    ensures r.arr == s.arr || fresh(r.arr)
  {
    var head := Slice(s.arr, s.off, i, i);
    var tail := View(s)[i + 1..];
    assert View(head) == View(s)[..i];
    assert View(head) + tail == Without(View(s), i);
    r := Append(head, tail);
  }
}
