/** Ascending lists of positions. */
module Lists {

  predicate Ascending(js: seq<nat>) {
    forall a, b :: 0 <= a < b < |js| ==> js[a] < js[b]
  }

  ghost predicate SameMembers(js: seq<nat>, js': seq<nat>) { forall j: nat :: j in js <==> j in js' }

  lemma LastIsLargest(js: seq<nat>, j: nat)
    requires Ascending(js) && j in js
    ensures j <= js[|js| - 1] && (j in js[..|js| - 1] <==> j < js[|js| - 1])
  {
    var k :| 0 <= k < |js| && js[k] == j;
    assert k < |js| - 1 ==> js[..|js| - 1][k] == j;
  }

  lemma SameLast(js: seq<nat>, js': seq<nat>)
    requires Ascending(js) && Ascending(js') && SameMembers(js, js') && js != [] && js' != []
    ensures js[|js| - 1] == js'[|js'| - 1]
    ensures SameMembers(js[..|js| - 1], js'[..|js'| - 1])
  {
    var last, last' := js[|js| - 1], js'[|js'| - 1];
    assert last in js && last' in js';
    LastIsLargest(js, last');
    LastIsLargest(js', last);
    var init, init' := js[..|js| - 1], js'[..|js'| - 1];
    forall j: nat ensures j in init <==> j in init' {
      if j in js {
        LastIsLargest(js, j);
        LastIsLargest(js', j);
      }
    }
  }

  /** An ascending list is determined by its members. */
  lemma {:induction false} AscendingUnique(js: seq<nat>, js': seq<nat>)
    requires Ascending(js) && Ascending(js') && SameMembers(js, js')
    ensures js == js'
    decreases |js|
  {
    assert (js == [] || js[0] in js') && (js' == [] || js'[0] in js);
    if js != [] {
      SameLast(js, js');
      AscendingUnique(js[..|js| - 1], js'[..|js'| - 1]);
      assert js == js[..|js| - 1] + [js[|js| - 1]] && js' == js'[..|js'| - 1] + [js'[|js'| - 1]];
    }
  }
}
