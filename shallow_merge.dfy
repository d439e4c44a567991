/** `RTools.merge` of index.js: the shallow merge. Each argument that is a
    truthy object or function has its own enumerable properties copied onto
    the result with `Object.assign`; every other argument is skipped. */
module ShallowMerge {
  import opened JsValues

  /** Whether `merge` takes an argument at all: `!!arg && (typeof arg ==
      'object' || typeof arg == 'function')`. */
  function Assignable(arg: Value): (taken: bool)
    ensures taken <==> arg.Obj? || arg.Fn?
  {
    Truthy(arg) && (IsObject(arg) || arg.Fn?)
  }

  /** `merge(args...)`: the arguments folded into `{}` with `Object.assign`. */
  function AssignAll(args: seq<Value>): map<string, Value>
    decreases |args|
  {
    if args == [] then map[]
    else
      var acc := AssignAll(args[..|args| - 1]);
      var arg := args[|args| - 1];
      if Assignable(arg) then acc + Enum(arg) else acc
  }

  /** The merge as the source runs it: a loop that shifts the arguments off
      one by one and assigns each accepted one onto the result. */
  method Merge(args: seq<Value>) returns (merged: map<string, Value>)
    ensures merged == AssignAll(args)
  {
    merged := map[];
    var rest := args;
    while |rest| > 0
      invariant |rest| <= |args| && rest == args[|args| - |rest|..]
      invariant merged == AssignAll(args[..|args| - |rest|])
    {
      var arg := rest[0];
      ghost var i := |args| - |rest|;
      assert arg == args[i];
      rest := rest[1..];
      if Assignable(arg) {
        merged := merged + Enum(arg);
      }
      assert args[..i + 1][..i] == args[..i];
    }
    assert args[..|args|] == args;
  }

  /** The merge holds exactly the properties of the arguments (arguments
      that are not objects have none to give). */
  lemma {:induction false} AssignKeys(args: seq<Value>)
    ensures forall k :: k in AssignAll(args) <==> exists i :: 0 <= i < |args| && k in Enum(args[i])
  {
    if args != [] {
      var n := |args| - 1;
      AssignKeys(args[..n]);
      forall k | k in AssignAll(args) ensures exists i :: 0 <= i < |args| && k in Enum(args[i]) {
        if k !in Enum(args[n]) || !Assignable(args[n]) {
          assert k in AssignAll(args[..n]);
          var i :| 0 <= i < n && k in Enum(args[..n][i]);
          assert args[..n][i] == args[i];
        }
      }
      forall k | exists i :: 0 <= i < |args| && k in Enum(args[i]) ensures k in AssignAll(args) {
        var i :| 0 <= i < |args| && k in Enum(args[i]);
        if i < n {
          assert args[..n][i] == args[i];
        } else {
          assert args[n].Obj? && Assignable(args[n]);
        }
      }
    }
  }

  /** Every property, object-valued or not, takes its value wholesale from
      the last argument that has it: a nested object of a later argument
      replaces an earlier nested object instead of being combined with it. */
  lemma {:induction false} LastWins(args: seq<Value>, j: nat, k: string)
    requires j < |args| && k in Enum(args[j])
    requires forall i :: j < i < |args| ==> k !in Enum(args[i])
    ensures k in AssignAll(args) && AssignAll(args)[k] == Enum(args[j])[k]
  {
    var n := |args| - 1;
    if j < n {
      forall i | j < i < n ensures k !in Enum(args[..n][i]) {
        assert args[..n][i] == args[i];
      }
      assert args[..n][j] == args[j];
      LastWins(args[..n], j, k);
      assert k !in Enum(args[n]);
    } else {
      assert args[n].Obj? && Assignable(args[n]);
    }
  }
}
