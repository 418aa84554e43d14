/** User records as the directory delivers them, and the string operations the
    controller applies to their names: case folding and substring search. */
module Users {

  /** An optional value; `None` plays the part of JavaScript's `null`/`undefined`. */
  datatype Option<T> = None | Some(value: T)

  /** A user record: only `id` and `name` are read by the controller. */
  datatype User = User(id: int, name: string)

  /** Case folding of one character, restricted to ASCII: 'A'..'Z' map to 'a'..'z'. */
  function LowerChar(c: char): (r: char)
    ensures 'A' <= c <= 'Z' ==> r as int == c as int + 32
    ensures !('A' <= c <= 'Z') ==> r == c
    ensures !('A' <= r <= 'Z')
  {
    if 'A' <= c <= 'Z' then (c as int + 32) as char else c
  }

  /** `String.prototype.toLowerCase`, folding character by character. */
  function Lower(s: string): (r: string)
    ensures |r| == |s|
    ensures forall i :: 0 <= i < |s| ==> r[i] == LowerChar(s[i])
  {
    if s == [] then [] else [LowerChar(s[0])] + Lower(s[1..])
  }

  /** Folding twice is folding once, so a query that is already lower case is
      matched as it stands. */
  lemma LowerIdempotent(s: string)
    ensures Lower(Lower(s)) == Lower(s)
  {
  }

  /** `needle` occurs in `hay` starting at position `i`. */
  predicate OccursAt(needle: string, hay: string, i: int)
  {
    0 <= i && i + |needle| <= |hay| && hay[i..i + |needle|] == needle
  }

  /** `String.prototype.includes`: `needle` is a prefix of `hay` or occurs
      in its tail. The empty string occurs in every string. */
  function Contains(hay: string, needle: string): (r: bool)
    ensures needle == [] ==> r
    ensures needle <= hay ==> r
    ensures |hay| < |needle| ==> !r
    decreases |hay|
  {
    needle <= hay || (hay != [] && Contains(hay[1..], needle))
  }

  /** `Contains` holds exactly when the needle occurs at some position. */
  lemma {:induction false} ContainsIff(hay: string, needle: string)
    ensures Contains(hay, needle) <==> exists i :: OccursAt(needle, hay, i)
    decreases |hay|
  {
    if needle <= hay {
      assert OccursAt(needle, hay, 0);
    } else if hay == [] {
      assert forall i :: !OccursAt(needle, hay, i);
    } else {
      ContainsIff(hay[1..], needle);
      if Contains(hay[1..], needle) {
        var i :| OccursAt(needle, hay[1..], i);
        assert hay[i + 1..i + 1 + |needle|] == hay[1..][i..i + |needle|];
        assert OccursAt(needle, hay, i + 1);
      }
      if exists i :: OccursAt(needle, hay, i) {
        var i :| OccursAt(needle, hay, i);
        assert i > 0;
        assert hay[1..][i - 1..i - 1 + |needle|] == hay[i..i + |needle|];
        assert OccursAt(needle, hay[1..], i - 1);
      }
    }
  }

  /** The `selected` flag of a rendered list item: set exactly when a current
      user exists and has the item's id. */
  predicate IsSelected(current: Option<User>, item: User): (r: bool)
    ensures r ==> current.Some?
    ensures current == Some(item) ==> r
    ensures current.None? ==> !r
  {
    current.Some? && current.value.id == item.id
  }

  /** No two records of the list share an id. */
  predicate UniqueIds(users: seq<User>)
  {
    forall i, j :: 0 <= i < j < |users| ==> users[i].id != users[j].id
  }

  /** With distinct ids, at most one rendered item is marked selected. */
  lemma AtMostOneSelected(users: seq<User>, current: Option<User>, i: int, j: int)
    requires UniqueIds(users)
    requires 0 <= i < |users| && 0 <= j < |users|
    requires IsSelected(current, users[i]) && IsSelected(current, users[j])
    ensures i == j
  {
  }
}
