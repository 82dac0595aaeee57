/** Names of commands, aliases and variables, compared without regard to case. */
module Names {

  /** A capital letter gives the small one, which is 32 above it; any other character stays. */
  function LowerChar(c: char): (r: char)
    ensures r != c ==> 'A' <= c <= 'Z' && r as int == c as int + 32
    ensures !('A' <= r <= 'Z')
  {
    if 'A' <= c <= 'Z' then (c as int + 32) as char else c
  }

  function Lower(name: string): (r: string)
    ensures |r| == |name|
  {
    seq(|name|, i requires 0 <= i < |name| => LowerChar(name[i]))
  }

  /** Q_stricmp: the difference at the first place where the names differ in more than case. */
  function Stricmp(a: string, b: string): int {
    if a == "" && b == "" then 0
    else if a == "" then -1
    else if b == "" then 1
    else if LowerChar(a[0]) != LowerChar(b[0]) then LowerChar(a[0]) as int - LowerChar(b[0]) as int
    else Stricmp(a[1..], b[1..])
  }

  /** Equal, or one is a capital letter and the other the small letter 32 above it. */
  predicate SameChar(c: char, d: char) {
    || c == d
    || ('A' <= c <= 'Z' && d as int == c as int + 32)
    || ('A' <= d <= 'Z' && c as int == d as int + 32)
  }

  lemma LowerCharSame(c: char, d: char)
    ensures LowerChar(c) == LowerChar(d) <==>
              || c == d
              || ('A' <= c <= 'Z' && d as int == c as int + 32)
              || ('A' <= d <= 'Z' && c as int == d as int + 32)
  {
  }

  /** Names that differ in case only. */
  predicate SameName(a: string, b: string) {
    |a| == |b| && forall k :: 0 <= k < |a| ==> SameChar(a[k], b[k])
  }

  lemma {:induction false} StricmpSame(a: string, b: string)
    ensures Stricmp(a, b) == 0 <==>
              |a| == |b| && forall k :: 0 <= k < |a| ==>
                  || a[k] == b[k]
                  || ('A' <= a[k] <= 'Z' && b[k] as int == a[k] as int + 32)
                  || ('A' <= b[k] <= 'Z' && a[k] as int == b[k] as int + 32)
    ensures Stricmp(a, b) == 0 <==> SameName(a, b)
  {
    hide LowerChar;
    if a != "" && b != "" {
      LowerCharSame(a[0], b[0]);
      StricmpSame(a[1..], b[1..]);
      assert |a| == |b| ==> forall k :: 1 <= k < |a| ==> a[k] == a[1..][k - 1] && b[k] == b[1..][k - 1];
      assert forall k :: 0 <= k < |a[1..]| ==> a[1..][k] == a[k + 1];
      assert forall k :: 0 <= k < |b[1..]| ==> b[1..][k] == b[k + 1];
    }
  }

  /** The names agree before k, and there a ends or has the smaller character. */
  predicate LessAt(a: string, b: string, k: nat) {
    && k <= |a| && k < |b| && SameName(a[..k], b[..k])
    && (k < |a| ==> LowerChar(a[k]) < LowerChar(b[k]))
  }

  /** The order is that of a dictionary. */
  lemma {:induction false} StricmpLess(a: string, b: string)
    ensures Stricmp(a, b) < 0 <==> exists k: nat :: LessAt(a, b, k)
  {
    hide LowerChar, SameChar, SameName;
    if b == "" {
    } else if a == "" {
      EmptyName();
      assert a[..0] == "" && b[..0] == "";
      assert LessAt(a, b, 0);
    } else if LowerChar(a[0]) == LowerChar(b[0]) {
      StricmpLess(a[1..], b[1..]);
      forall k: nat ensures LessAt(a, b, k + 1) <==> LessAt(a[1..], b[1..], k) {
        LessBehind(a, b, k);
      }
      assert !LessAt(a, b, 0);
      if Stricmp(a, b) < 0 {
        var k: nat :| LessAt(a[1..], b[1..], k);
        assert LessAt(a, b, k + 1);
      } else if exists k: nat :: LessAt(a, b, k) {
        var k: nat :| LessAt(a, b, k);
        LessBehind(a, b, k - 1);
      }
    } else {
      EmptyName();
      assert a[..0] == "" && b[..0] == "";
      forall k: nat | k > 0 ensures !LessAt(a, b, k) {
        if k <= |a| && k < |b| {
          FirstDiffers(a, b, k);
        }
      }
      assert Stricmp(a, b) < 0 <==> LessAt(a, b, 0);
    }
  }

  lemma EmptyName()
    ensures SameName("", "")
  {
  }

  lemma FirstDiffers(a: string, b: string, k: nat)
    requires 0 < k <= |a| && k <= |b| && LowerChar(a[0]) != LowerChar(b[0])
    ensures !SameName(a[..k], b[..k])
  {
    LowerCharSame(a[0], b[0]);
    assert a[..k][0] == a[0] && b[..k][0] == b[0];
  }

  lemma LessBehind(a: string, b: string, k: nat)
    requires a != "" && b != "" && LowerChar(a[0]) == LowerChar(b[0])
    ensures LessAt(a, b, k + 1) <==> LessAt(a[1..], b[1..], k)
  {
    hide LowerChar, SameChar;
    LowerCharSame(a[0], b[0]);
    FirstSame(a[0], b[0]);
    if k + 1 <= |a| && k + 1 <= |b| {
      assert a[..k + 1] == [a[0]] + a[1..][..k] && b[..k + 1] == [b[0]] + b[1..][..k];
      SameNameCons(a[0], a[1..][..k], b[0], b[1..][..k]);
    }
  }

  lemma FirstSame(c: char, d: char)
    requires LowerChar(c) == LowerChar(d)
    ensures SameChar(c, d)
  {
  }

  lemma SameNameCons(c: char, a: string, d: char, b: string)
    requires SameChar(c, d)
    ensures SameName([c] + a, [d] + b) <==> SameName(a, b)
  {
    hide SameChar;
    if SameName([c] + a, [d] + b) {
      forall k | 0 <= k < |a| ensures SameChar(a[k], b[k]) {
        assert ([c] + a)[k + 1] == a[k] && ([d] + b)[k + 1] == b[k];
      }
    }
  }

  lemma NamesOrdered()
    ensures Stricmp("a_", "AZ") < 0 && Stricmp("b", "Ba") < 0 && Stricmp("Z", "z") == 0
  {
  }

  lemma {:induction false} StricmpZero(a: string, b: string)
    ensures Stricmp(a, b) == 0 <==> Lower(a) == Lower(b)
  {
    if a != "" && b != "" {
      StricmpZero(a[1..], b[1..]);
      assert Lower(a) == [LowerChar(a[0])] + Lower(a[1..]);
      assert Lower(b) == [LowerChar(b[0])] + Lower(b[1..]);
      assert Lower(a)[1..] == Lower(a[1..]) && Lower(b)[1..] == Lower(b[1..]);
    }
  }

  lemma SameSpelling(a: string, b: string, c: string)
    requires SameName(a, b)
    ensures Stricmp(a, c) == 0 <==> Stricmp(b, c) == 0
  {
    hide Stricmp, SameName, Lower;
    StricmpSame(a, b);
    StricmpZero(a, b);
    StricmpZero(a, c);
    StricmpZero(b, c);
  }

  lemma SameNameFlip(a: string, b: string)
    ensures SameName(a, b) <==> SameName(b, a)
  {
  }

  lemma {:induction false} StricmpFlip(a: string, b: string)
    ensures Stricmp(a, b) == -Stricmp(b, a)
  {
    if a != "" && b != "" {
      StricmpFlip(a[1..], b[1..]);
    }
  }

  lemma {:induction false} StricmpOrder(a: string, b: string, c: string)
    requires Stricmp(a, b) <= 0 && Stricmp(b, c) <= 0
    ensures Stricmp(a, c) <= 0
    ensures Stricmp(a, c) == 0 ==> Stricmp(a, b) == 0 && Stricmp(b, c) == 0
  {
    if a != "" && b != "" && c != "" && LowerChar(a[0]) == LowerChar(b[0]) == LowerChar(c[0]) {
      StricmpOrder(a[1..], b[1..], c[1..]);
    }
  }
}
