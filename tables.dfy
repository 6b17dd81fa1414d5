/** Generic helpers for collections kept in insertion order: the optional
    value a lookup answers with, and the first-match search a document
    store's `find_one` / `update_one` / `delete_one` perform when several
    documents match a filter. */
module Tables {

  datatype Option<+T> = None | Some(value: T) {
    function GetOr(default: T): T {
      match this
      case Some(v) => v
      case None => default
    }
  }

  /** Position of the first element of `s` that satisfies `p`, or None. */
  function FindFirst<T>(s: seq<T>, p: T -> bool): (r: Option<nat>)
    ensures r.None? <==> forall j :: 0 <= j < |s| ==> !p(s[j])
    ensures r.Some? ==> r.value < |s| && p(s[r.value])
    ensures r.Some? ==> forall j :: 0 <= j < r.value ==> !p(s[j])
  {
    if |s| == 0 then None
    else if p(s[0]) then Some(0)
    else match FindFirst(s[1..], p)
      case None => None
      case Some(k) => Some(k + 1)
  }

  /** When `p` holds at `i` and nowhere else, the first match is `i`. */
  lemma FindFirstOnly<T>(s: seq<T>, p: T -> bool, i: nat)
    requires i < |s| && p(s[i])
    requires forall j :: 0 <= j < |s| && j != i ==> !p(s[j])
    ensures FindFirst(s, p) == Some(i)
  {
  }

  /** Two searches that agree element by element find the same position. */
  lemma FindFirstAgree<T, U>(s: seq<T>, p: T -> bool, t: seq<U>, q: U -> bool)
    requires |s| == |t|
    requires forall j :: 0 <= j < |s| ==> p(s[j]) == q(t[j])
    ensures FindFirst(s, p) == FindFirst(t, q)
  {
  }

  /** `s` without its element at position `i` (what `delete_one` leaves). */
  function RemoveAt<T>(s: seq<T>, i: nat): (r: seq<T>)
    requires i < |s|
    ensures |r| == |s| - 1
    ensures forall j :: 0 <= j < i ==> r[j] == s[j]
    ensures forall j :: i <= j < |r| ==> r[j] == s[j + 1]
  {
    s[..i] + s[i + 1..]
  }
}
