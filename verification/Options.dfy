module Options {
  datatype Option<+T> = None | Some(value: T)

  /** All the values, or None if one of them is missing. */
  function All<T>(options: seq<Option<T>>): (r: Option<seq<T>>)
    ensures r.Some? <==> forall i :: 0 <= i < |options| ==> options[i].Some?
    ensures r.Some? ==> |r.value| == |options|
    ensures r.Some? ==> forall i :: 0 <= i < |options| ==> options[i] == Some(r.value[i])
  {
    if options == [] then Some([])
    else if options[0].None? then None
    else
      var rest := All(options[1..]);
      assert forall i :: 0 < i < |options| ==> options[i] == options[1..][i - 1];
      if rest.None? then None else Some([options[0].value] + rest.value)
  }
}
