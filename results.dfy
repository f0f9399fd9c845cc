/**
 * The error taxonomy of the packers and parsers, and the Result type every
 * operation that can raise returns.  Each constructor names the Python
 * exception (or the message of the ValueError) it stands for.
 */
module Results {

  datatype Error =
    | FileNotFound(path: string)            // FileNotFoundError / open() on a missing path
    | TooShort(length: nat, needed: nat)    // ValueError("Data too short: ...")
    | BadEntryType(code: int)               // ValueError raised by RKEntryType(...)
    | UnsupportedChip(chip: string)         // ValueError("Unsupported chip: ...")
    | SplTooLarge(size: nat, limit: nat)    // ValueError("SPL too large: ...")
    | BadSignature(found: int)              // ValueError("Invalid signature: ...")
    | BadTag(tag: seq<int>)                 // ValueError("Invalid trust image magic: ...")
    | NotElf                                // ValueError("Not an ELF file")
    | ElfNotLittleEndian                    // ValueError("Only little-endian ...")
    | ElfNotExecutable                      // ValueError("Only executable ...")
    | NoComponents                          // ValueError("No components to pack")
    | MissingBinaries                       // FileNotFoundError("Required binaries not found")
    | ImageTooLarge(size: nat, limit: nat)  // ValueError("Trust image size ... exceeds ...")
    | StructError                           // struct.error: short read or value out of range
    | CodecError                            // UnicodeEncodeError / UnicodeDecodeError

  datatype Result<+T> = Success(value: T) | Failure(error: Error) {
    predicate IsFailure() { Failure? }

    function PropagateFailure<U>(): Result<U>
      requires Failure?
    {
      Failure(error)
    }

    function Extract(): T
      requires Success?
    {
      value
    }
  }

  datatype Option<+T> = None | Some(value: T)

  /**
   * A loop whose steps each can raise: the values of the steps in order,
   * or the error of the first step that fails.
   */
  function Collect<T>(rs: seq<Result<T>>): (r: Result<seq<T>>)
  {
    if rs == [] then Success([])
    else
      var done :- Collect(rs[..|rs| - 1]);
      var e :- rs[|rs| - 1];
      Success(done + [e])
  }

  /** The fold succeeds exactly when every step does, and then holds each step's value. */
  lemma {:induction false} CollectSucceeds<T>(rs: seq<Result<T>>)
    ensures Collect(rs).Success? <==> forall i :: 0 <= i < |rs| ==> rs[i].Success?
    ensures Collect(rs).Success? ==>
      |Collect(rs).value| == |rs| && forall i :: 0 <= i < |rs| ==> Collect(rs).value[i] == rs[i].value
  {
    if rs != [] {
      var init := rs[..|rs| - 1];
      CollectSucceeds(init);
      assert forall i :: 0 <= i < |init| ==> init[i] == rs[i];
    }
  }

  /** When some step fails, the fold fails with the error of the first one that does. */
  lemma {:induction false} CollectFirstError<T>(rs: seq<Result<T>>, j: nat)
    requires j < |rs| && rs[j].Failure? && forall i :: 0 <= i < j ==> rs[i].Success?
    ensures Collect(rs) == Failure(rs[j].error)
  {
    var init := rs[..|rs| - 1];
    if j == |rs| - 1 {
      CollectSucceeds(init);
      assert forall i :: 0 <= i < |init| ==> init[i] == rs[i];
    } else {
      assert init[j] == rs[j];
      assert forall i :: 0 <= i < j ==> init[i] == rs[i];
      CollectFirstError(init, j);
    }
  }

  /** One more step after the first `i` succeeded. */
  lemma CollectNext<T>(rs: seq<Result<T>>, i: nat, done: seq<T>)
    requires i < |rs| && Collect(rs[..i]) == Success(done)
    ensures Collect(rs[..i + 1]) == if rs[i].Success? then Success(done + [rs[i].value]) else Failure(rs[i].error)
  {
    assert rs[..i + 1][..i] == rs[..i];
  }

  /** Once the first `i` steps have failed, the whole fold fails with the same error. */
  lemma {:induction false} CollectPrefixFail<T>(rs: seq<Result<T>>, i: nat, e: Error)
    requires i <= |rs| && Collect(rs[..i]) == Failure(e)
    ensures Collect(rs) == Failure(e)
    decreases |rs|
  {
    if i < |rs| {
      var init := rs[..|rs| - 1];
      assert init[..i] == rs[..i];
      CollectPrefixFail(init, i, e);
    } else {
      assert rs[..i] == rs;
    }
  }

  /** When step `i` gives `es[i]` for every `i`, the fold gives `es`. */
  lemma CollectAll<T>(rs: seq<Result<T>>, es: seq<T>)
    requires |rs| == |es| && forall i :: 0 <= i < |rs| ==> rs[i] == Success(es[i])
    ensures Collect(rs) == Success(es)
  {
    CollectSucceeds(rs);
    assert Collect(rs).value == es;
  }

  /** A fold whose every failing step fails with `e` fails, if at all, with `e`. */
  lemma {:induction false} CollectFailureIs<T>(rs: seq<Result<T>>, e: Error)
    requires forall i :: 0 <= i < |rs| && rs[i].Failure? ==> rs[i].error == e
    ensures Collect(rs).Failure? ==> Collect(rs).error == e
  {
    if rs != [] {
      var init := rs[..|rs| - 1];
      assert forall i :: 0 <= i < |init| ==> init[i] == rs[i];
      CollectFailureIs(init, e);
    }
  }
}
