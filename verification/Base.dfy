// Small vocabulary shared by every module of the model.
module Base {

  datatype Option<+T> = None | Some(value: T)

  function Flatten<R>(bs: seq<seq<R>>): seq<R> {
    if bs == [] then [] else bs[0] + Flatten(bs[1..])
  }

  lemma FlattenAppend<R>(bs: seq<seq<R>>, b: seq<R>)
    ensures Flatten(bs + [b]) == Flatten(bs) + b
  {
    if bs == [] {
      assert [b][1..] == [];
      assert Flatten([b]) == b + Flatten([]);
    } else {
      assert (bs + [b])[1..] == bs[1..] + [b];
      FlattenAppend(bs[1..], b);
    }
  }
}
