/** The one string operation the pages compute with: JavaScript's `String.prototype.includes`. */
module Text {

  /** `sub` sits in `s` starting at position `i`. */
  ghost predicate OccursAt(s: string, sub: string, i: int)
  {
    0 <= i && i + |sub| <= |s| && s[i..i + |sub|] == sub
  }

  /** Reference meaning of `s.includes(sub)`: some position of `s` holds `sub`. */
  ghost predicate Occurs(s: string, sub: string)
  {
    exists i :: OccursAt(s, sub, i)
  }

  /** `s.includes(sub)`, scanning the start positions of `s` from the left. */
  function Includes(s: string, sub: string): bool
    decreases |s|
  {
    if sub <= s then true
    else if |s| == 0 then false
    else Includes(s[1..], sub)
  }

  /** An occurrence in the tail of `s` is an occurrence in `s`, one position later, and back. */
  lemma OccursInTail(s: string, sub: string)
    requires |s| > 0
    ensures Occurs(s[1..], sub) ==> Occurs(s, sub)
    ensures Occurs(s, sub) && !(sub <= s) ==> Occurs(s[1..], sub)
  {
    if Occurs(s[1..], sub) {
      var i :| OccursAt(s[1..], sub, i);
      assert s[i + 1..i + 1 + |sub|] == s[1..][i..i + |sub|];
      assert OccursAt(s, sub, i + 1);
    }
    if Occurs(s, sub) && !(sub <= s) {
      var i :| OccursAt(s, sub, i);
      assert i != 0;
      assert s[1..][i - 1..i - 1 + |sub|] == s[i..i + |sub|];
      assert OccursAt(s[1..], sub, i - 1);
    }
  }

  /** The scan answers exactly the reference question, in both directions. */
  lemma {:induction false} IncludesIffOccurs(s: string, sub: string)
    ensures Includes(s, sub) <==> Occurs(s, sub)
    decreases |s|
  {
    if sub <= s {
      assert s[0..|sub|] == sub;
      assert OccursAt(s, sub, 0);
    } else if |s| == 0 {
      assert forall i :: !OccursAt(s, sub, i);
    } else {
      IncludesIffOccurs(s[1..], sub);
      OccursInTail(s, sub);
    }
  }

  /** A string that lacks one of the characters of `sub` does not include `sub`. */
  lemma NotIncludedWhenCharMissing(s: string, sub: string, k: nat)
    requires k < |sub| && sub[k] !in s
    ensures !Includes(s, sub)
  {
    IncludesIffOccurs(s, sub);
  }
}
