/** `ModelHelper.getAllRecursive`: offset paging by tail recursion. */
module Paging {
  import opened Lists

  /** `findAll` with `limit` and `offset` on a fixed ordered result. */
  function FindAll<T>(all: seq<T>, limit: nat, offset: nat): seq<T> {
    if |all| <= offset then [] else Take(all[offset..], limit)
  }

  /** Stops once a page after the first one was short. `lastLength` is the length of the page before `offset`. */
  function GetAllRecursive<T>(all: seq<T>, limit: nat, offset: nat, found: seq<T>, lastLength: nat): seq<T>
    requires 1 <= limit
    requires offset > 0 ==> limit <= offset && lastLength == |FindAll(all, limit, offset - limit)|
    decreases if offset <= |all| then |all| - offset + 1 else 0
  {
    if offset > 0 && lastLength < limit then found
    else
      var page := FindAll(all, limit, offset);
      GetAllRecursive(all, limit, offset + limit, found + page, |page|)
  }

  lemma {:induction false} PagesAddUp<T>(all: seq<T>, limit: nat, offset: nat, found: seq<T>, lastLength: nat)
    requires 1 <= limit
    requires offset > 0 ==> limit <= offset && lastLength == |FindAll(all, limit, offset - limit)|
    requires found == if offset <= |all| then all[..offset] else all
    ensures GetAllRecursive(all, limit, offset, found, lastLength) == all
    decreases if offset <= |all| then |all| - offset + 1 else 0
  {
    if !(offset > 0 && lastLength < limit) {
      var page := FindAll(all, limit, offset);
      assert offset + limit <= |all| ==> all[..offset] + all[offset..][..limit] == all[..offset + limit];
      assert offset <= |all| ==> all[..offset] + all[offset..] == all;
      PagesAddUp(all, limit, offset + limit, found + page, |page|);
    }
  }

  /** For any page size of at least 1 the recursion ends and returns the whole list, in order and once each. */
  lemma GetAllIsWhole<T>(all: seq<T>, limit: nat)
    requires 1 <= limit
    ensures GetAllRecursive(all, limit, 0, [], 0) == all
  {
    PagesAddUp(all, limit, 0, [], 0);
  }
}
