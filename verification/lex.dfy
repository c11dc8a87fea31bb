/** The order Rust gives byte strings: lexicographic, a proper prefix
    before any of its extensions. */
module Lex {
  import opened Bytes

  predicate Less(a: seq<byte>, b: seq<byte>) {
    exists k: nat | k <= |a| && k <= |b| :: Differ(a, b, k)
  }

  /** `a` and `b` agree before `k`, and at `k` either `a` has ended and
      `b` has not, or `a`'s byte is smaller. */
  predicate Differ(a: seq<byte>, b: seq<byte>, k: nat)
    requires k <= |a| && k <= |b|
  {
    a[..k] == b[..k] && ((k == |a| && k < |b|) || (k < |a| && k < |b| && a[k] < b[k]))
  }

  /** Length of the common prefix. */
  function Common(a: seq<byte>, b: seq<byte>): (k: nat)
    ensures k <= |a| && k <= |b| && a[..k] == b[..k]
    ensures k < |a| && k < |b| ==> a[k] != b[k]
  {
    if |a| == 0 || |b| == 0 || a[0] != b[0] then 0
    else
      var k := 1 + Common(a[1..], b[1..]);
      assert a[..k] == [a[0]] + a[1..][..k - 1];
      assert b[..k] == [b[0]] + b[1..][..k - 1];
      k
  }

  lemma DifferAtCommon(a: seq<byte>, b: seq<byte>, k: nat)
    requires k <= |a| && k <= |b| && Differ(a, b, k)
    ensures k == Common(a, b)
  {
  }

  /** Less decided at the first difference. */
  lemma LessCommon(a: seq<byte>, b: seq<byte>)
    ensures Less(a, b) <==> Differ(a, b, Common(a, b))
  {
    if Less(a, b) {
      var k: nat :| k <= |a| && k <= |b| && Differ(a, b, k);
      DifferAtCommon(a, b, k);
    }
  }

  lemma Irreflexive(a: seq<byte>)
    ensures !Less(a, a)
  {
    LessCommon(a, a);
  }

  lemma Asymmetric(a: seq<byte>, b: seq<byte>)
    requires Less(a, b)
    ensures !Less(b, a)
  {
    LessCommon(a, b);
    LessCommon(b, a);
    var k := Common(a, b);
    assert Common(b, a) == k by {
      assert Differ(a, b, k);
      CommonSymmetric(a, b);
    }
  }

  lemma CommonSymmetric(a: seq<byte>, b: seq<byte>)
    ensures Common(a, b) == Common(b, a)
  {
  }

  lemma Total(a: seq<byte>, b: seq<byte>)
    ensures a == b || Less(a, b) || Less(b, a)
  {
    var k := Common(a, b);
    CommonSymmetric(a, b);
    if k == |a| && k == |b| {
      assert a == a[..k] && b == b[..k];
    } else if k == |a| {
      assert Differ(a, b, k);
    } else if k == |b| {
      assert Differ(b, a, k);
    } else if a[k] < b[k] {
      assert Differ(a, b, k);
    } else {
      assert Differ(b, a, k);
    }
  }

  lemma Transitive(a: seq<byte>, b: seq<byte>, c: seq<byte>)
    requires Less(a, b) && Less(b, c)
    ensures Less(a, c)
  {
    var i: nat :| i <= |a| && i <= |b| && Differ(a, b, i);
    var j: nat :| j <= |b| && j <= |c| && Differ(b, c, j);
    if i < j {
      assert b[..j][i] == c[..j][i];
      assert a[..i] == c[..i] by {
        assert b[..j][..i] == b[..i];
        assert c[..j][..i] == c[..i];
      }
      assert Differ(a, c, i);
    } else if j < i {
      assert a[..i][j] == b[..i][j];
      assert a[..j] == c[..j] by {
        assert a[..i][..j] == a[..j];
        assert b[..i][..j] == b[..j];
      }
      assert Differ(a, c, j);
    } else {
      assert Differ(a, c, i);
    }
  }
}
