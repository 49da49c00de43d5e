/** Identifiers, their order, and ordered enumeration of finite identifier sets. */
module Ordered {
  import opened Sorting

  datatype Option<+T> = None | Some(value: T)

  /** A newtype over text. Identifiers are compared by equality and by their text. */
  datatype Id = Id(text: string)

  /** Strict lexicographic order of two texts. */
  predicate TextLess(a: string, b: string) {
    if b == "" then false
    else if a == "" then true
    else a[0] < b[0] || (a[0] == b[0] && TextLess(a[1..], b[1..]))
  }

  predicate Less(a: Id, b: Id) {
    TextLess(a.text, b.text)
  }

  lemma {:induction false} TextTrichotomy(a: string, b: string)
    ensures TextLess(a, b) || a == b || TextLess(b, a)
    ensures !(TextLess(a, b) && TextLess(b, a))
    ensures !TextLess(a, a)
  {
    if a == "" {
    } else {
      TextTrichotomy(a[1..], a[1..]);
      if b != "" {
        TextTrichotomy(a[1..], b[1..]);
        assert a == [a[0]] + a[1..] && b == [b[0]] + b[1..];
      }
    }
  }

  lemma {:induction false} TextTransitive(a: string, b: string, c: string)
    requires TextLess(a, b) && TextLess(b, c)
    ensures TextLess(a, c)
  {
    if a == "" {
    } else {
      if a[0] == b[0] && b[0] == c[0] {
        TextTransitive(a[1..], b[1..], c[1..]);
      }
    }
  }

  /** The two texts first differ at `i`, where the first is smaller or has ended. */
  predicate DifferAt(a: string, b: string, i: nat) {
    i <= |a| && i < |b| && a[..i] == b[..i] && (i == |a| || a[i] < b[i])
  }

  ghost predicate TextPrecedes(a: string, b: string) {
    exists i: nat :: DifferAt(a, b, i)
  }

  /** The recursive order is that one. */
  lemma {:induction false} LessDiffers(a: string, b: string)
    ensures TextLess(a, b) <==> TextPrecedes(a, b)
  {
    if b == "" {
    } else if a == "" {
      assert DifferAt(a, b, 0);
    } else {
      LessDiffers(a[1..], b[1..]);
      if TextLess(a, b) {
        if a[0] == b[0] {
          var i: nat :| DifferAt(a[1..], b[1..], i);
          assert a[..i + 1] == [a[0]] + a[1..][..i] && b[..i + 1] == [b[0]] + b[1..][..i];
          assert DifferAt(a, b, i + 1);
        } else {
          assert DifferAt(a, b, 0);
        }
      }
      if i: nat :| DifferAt(a, b, i) {
        if i > 0 {
          assert a[0] == a[..i][0] == b[..i][0] == b[0];
          assert a[1..][..i - 1] == a[..i][1..] && b[1..][..i - 1] == b[..i][1..];
          assert DifferAt(a[1..], b[1..], i - 1);
        }
      }
    }
  }

  /** `Less` is a strict total order on identifiers. */
  lemma LessIsTotal()
    ensures forall a: Id, b: Id :: Less(a, b) || a == b || Less(b, a)
    ensures forall a: Id, b: Id :: !(Less(a, b) && Less(b, a))
    ensures forall a: Id, b: Id, c: Id :: Less(a, b) && Less(b, c) ==> Less(a, c)
  {
    forall a: Id, b: Id
      ensures Less(a, b) || a == b || Less(b, a)
      ensures !(Less(a, b) && Less(b, a))
    {
      TextTrichotomy(a.text, b.text);
    }
    forall a: Id, b: Id, c: Id | Less(a, b) && Less(b, c)
      ensures Less(a, c)
    {
      TextTransitive(a.text, b.text, c.text);
    }
  }

  /** The first element in identifier order. */
  function Least(s: set<Id>): (m: Id)
    requires s != {}
    ensures m in s
    ensures forall x :: x in s ==> x == m || Less(m, x)
  {
    LessIsTotal();
    LeastExists(s, Less);
    var m :| m in s && forall x :: x in s ==> x == m || Less(m, x);
    m
  }

  ghost predicate StrictlyAscending(r: seq<Id>) {
    forall i, j :: 0 <= i < j < |r| ==> Less(r[i], r[j])
  }

  lemma NextIsNew(r: seq<Id>, i: nat)
    requires StrictlyAscending(r) && i < |r|
    ensures r[i] !in r[..i] && r[..i + 1] == r[..i] + [r[i]]
  {
    LessIsTotal();
  }

  /** The elements of a finite set in identifier order: what iterating an ordered set yields. */
  function Ascending(s: set<Id>): (r: seq<Id>)
    ensures forall x :: x in r <==> x in s
    ensures |r| == |s|
    ensures StrictlyAscending(r)
    decreases |s|
  {
    if s == {} then [] else
      var m := Least(s);
      var rest := Ascending(s - {m});
      assert forall x :: x in [m] + rest <==> x == m || x in rest;
      assert forall i :: 0 <= i < |rest| ==> rest[i] in s - {m};
      [m] + rest
  }
}
