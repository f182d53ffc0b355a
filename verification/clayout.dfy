/** The byte layout of a C struct, as a C compiler lays it out: each member
    starts at the first offset at or after the end of the previous member that
    is a multiple of the member's alignment, and the struct's size is the end
    of its last member rounded up to the largest member alignment (trailing
    padding). This is what `sizeof` and member access mean for the header
    structs of the ARP listener. */
module CLayout {

  /** An alignment is a positive number of bytes. */
  type Alignment = a: nat | a >= 1 witness 1

  /** A struct member: its name, its size in bytes and its alignment. */
  datatype Member = Member(name: string, size: nat, align: Alignment)

  /** The least multiple of `a` that is at least `n`. */
  function RoundUp(n: nat, a: Alignment): (r: nat)
    ensures n <= r < n + a
    ensures n % a == 0 ==> r == n
  {
    if n % a == 0 then n else n + (a - n % a)
  }

  /** The offset just past the last member of `ms` (before trailing padding). */
  function End(ms: seq<Member>): (r: nat)
    decreases |ms|, 0
  {
    if |ms| == 0 then 0 else Offset(ms, |ms| - 1) + ms[|ms| - 1].size
  }

  /** The offset of member `i`: the end of the members before it, rounded up
      to the member's alignment. */
  function Offset(ms: seq<Member>, i: nat): (r: nat)
    requires i < |ms|
    decreases i, 1
  {
    RoundUp(End(ms[..i]), ms[i].align)
  }

  /** The largest alignment of any member; 1 for an empty struct. */
  function MaxAlign(ms: seq<Member>): (r: Alignment)
    ensures forall i :: 0 <= i < |ms| ==> ms[i].align <= r
    ensures r == 1 || exists i :: 0 <= i < |ms| && ms[i].align == r
  {
    if |ms| == 0 then 1
    else
      var m := MaxAlign(ms[..|ms| - 1]);
      assert forall i :: 0 <= i < |ms| - 1 ==> ms[..|ms| - 1][i] == ms[i];
      assert m != 1 ==> exists i :: 0 <= i < |ms| - 1 && ms[i].align == m;
      if ms[|ms| - 1].align > m then ms[|ms| - 1].align else m
  }

  /** `sizeof` of the struct: the end of the members padded to the struct's
      alignment. */
  function Size(ms: seq<Member>): (r: nat)
  {
    RoundUp(End(ms), MaxAlign(ms))
  }

  /** The sum of the member sizes, ignoring padding. */
  function SumSizes(ms: seq<Member>): (r: nat)
  {
    if |ms| == 0 then 0 else SumSizes(ms[..|ms| - 1]) + ms[|ms| - 1].size
  }

  /** True when every member has alignment 1 (a packed struct). */
  predicate Packed(ms: seq<Member>)
  {
    forall i :: 0 <= i < |ms| ==> ms[i].align == 1
  }

  /** Adding member `k` to the members before it ends the struct at that
      member's offset plus its size. */
  lemma EndStep(ms: seq<Member>, k: nat)
    requires k < |ms|
    ensures End(ms[..k + 1]) == Offset(ms, k) + ms[k].size
  {
    var p := ms[..k + 1];
    assert p[..k] == ms[..k];
  }

  /** Every member lies after the end of the members before it, so the end
      of a struct grows with each member and members never overlap. */
  lemma {:induction false} EndMonotone(ms: seq<Member>, j: nat, k: nat)
    requires j <= k <= |ms|
    ensures End(ms[..j]) <= End(ms[..k])
    decreases k - j
  {
    if j < k {
      EndMonotone(ms, j, k - 1);
      var p := ms[..k];
      assert p[..k - 1] == ms[..k - 1];
      assert p[k - 1] == ms[k - 1];
      assert End(p) == RoundUp(End(ms[..k - 1]), ms[k - 1].align) + ms[k - 1].size;
    }
  }

  /** Member `i` occupies bytes [Offset(i), Offset(i) + size) and these
      ranges are disjoint, in declaration order, and within `sizeof`. */
  lemma {:induction false} MembersDisjointAndInside(ms: seq<Member>, i: nat, j: nat)
    requires i < j < |ms|
    ensures Offset(ms, i) + ms[i].size <= Offset(ms, j)
    ensures Offset(ms, j) + ms[j].size <= Size(ms)
  {
    var p := ms[..i + 1];
    assert p[..i] == ms[..i];
    assert End(p) == Offset(ms, i) + ms[i].size;
    EndMonotone(ms, i + 1, j);
    MemberInside(ms, j);
  }

  /** A single member lies within `sizeof` of its struct. */
  lemma {:induction false} MemberInside(ms: seq<Member>, j: nat)
    requires j < |ms|
    ensures Offset(ms, j) + ms[j].size <= Size(ms)
  {
    var p := ms[..j + 1];
    assert p[..j] == ms[..j];
    assert End(p) == Offset(ms, j) + ms[j].size;
    EndMonotone(ms, j + 1, |ms|);
    assert ms[..|ms|] == ms;
  }

  /** Padding only adds bytes: `sizeof` is at least the sum of the member
      sizes, and the two are equal for a packed struct. */
  lemma {:induction false} SizeCoversMembers(ms: seq<Member>)
    ensures SumSizes(ms) <= End(ms) <= Size(ms)
    ensures Packed(ms) ==> Size(ms) == SumSizes(ms)
  {
    EndCoversSum(ms);
    if Packed(ms) {
      PackedEndIsSum(ms);
      PackedMaxAlignIsOne(ms);
    }
  }

  lemma {:induction false} EndCoversSum(ms: seq<Member>)
    ensures SumSizes(ms) <= End(ms)
    decreases |ms|
  {
    if |ms| > 0 {
      var init := ms[..|ms| - 1];
      EndCoversSum(init);
      assert ms[..|ms| - 1] == init;
    }
  }

  lemma {:induction false} PackedEndIsSum(ms: seq<Member>)
    requires Packed(ms)
    ensures End(ms) == SumSizes(ms)
    decreases |ms|
  {
    if |ms| > 0 {
      var init := ms[..|ms| - 1];
      assert Packed(init) by {
        forall i | 0 <= i < |init| ensures init[i].align == 1 {
          assert init[i] == ms[i];
        }
      }
      PackedEndIsSum(init);
    }
  }

  lemma {:induction false} PackedMaxAlignIsOne(ms: seq<Member>)
    requires Packed(ms)
    ensures MaxAlign(ms) == 1
    decreases |ms|
  {
    if |ms| > 0 {
      var init := ms[..|ms| - 1];
      assert Packed(init) by {
        forall i | 0 <= i < |init| ensures init[i].align == 1 {
          assert init[i] == ms[i];
        }
      }
      PackedMaxAlignIsOne(init);
    }
  }
}
