/** What several modules share. */
module Common {

  datatype Option<T> = None | Some(value: T)

  lemma {:induction false} SubsetCount<T>(s: set<T>, t: set<T>)
    requires s <= t
    ensures |s| <= |t| && (|s| == |t| ==> s == t)
    decreases |s|
  {
    if s == {} {
    } else {
      var x :| x in s;
      SubsetCount(s - {x}, t - {x});
      assert s == (s - {x}) + {x} && t == (t - {x}) + {x};
    }
  }
}
