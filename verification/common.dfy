/** Vocabulary shared by every component: options, status codes and canonical values. */
module Common {
  datatype Option<+T> = None | Some(value: T)

  /** The status codes of include/esdb/esdb_types.h that the modelled operations return. */
  datatype Status =
    | Ok
    | InvalidArgument
    | OutOfMemory
    | Sqlite
    | Busy
    | NotFound
    | InvalidState
    | Migration
    | Unsupported
    | Internal
    | Gap

  /** What a host callback tells the library after being shown something: zero, anything else, or an exception. */
  datatype Verdict = Continue | Stop | Throw

  /**
   A delivery did what the callback said: one verdict for each thing shown, every one but the last Continue; it stopped,
   or ended in an exception, exactly when the last one said so, and was whole otherwise.
   */
  ghost predicate Obeyed(verdicts: seq<Verdict>, shown: nat, whole: nat, stopped: bool, thrown: bool) {
    && |verdicts| == shown <= whole
    && (forall i :: 0 <= i < shown - 1 ==> verdicts[i].Continue?)
    && (stopped <==> shown > 0 && verdicts[shown - 1].Stop?)
    && (thrown <==> shown > 0 && verdicts[shown - 1].Throw?)
    && (!stopped && !thrown ==> shown == whole)
  }

  ghost predicate AllContinue(verdicts: seq<Verdict>) {
    forall i :: 0 <= i < |verdicts| ==> verdicts[i].Continue?
  }

  /** One more verdict: the delivery goes on, or ends here. */
  lemma OneVerdict(verdicts: seq<Verdict>, verdict: Verdict, whole: nat)
    requires AllContinue(verdicts) && |verdicts| < whole
    ensures verdict.Continue? ==> AllContinue(verdicts + [verdict])
    ensures !verdict.Continue? ==>
              Obeyed(verdicts + [verdict], |verdicts| + 1, whole, verdict.Stop?, verdict.Throw?)
  {
  }

  lemma AllObeyed(verdicts: seq<Verdict>)
    requires AllContinue(verdicts)
    ensures Obeyed(verdicts, |verdicts|, |verdicts|, false, false)
  {
  }

  lemma PrefixNext<T>(s: seq<T>, i: nat)
    requires i < |s|
    ensures s[..i + 1] == s[..i] + [s[i]] && s[..|s|] == s
  {
  }

  type byte = b: nat | b < 256

  datatype ValueType =
    | NullType
    | BoolType
    | Int32Type
    | Int64Type
    | DoubleType
    | Utf8Type
    | BytesType
    | ArrayType
    | ObjectType

  /** A canonical ESDB value: a type tag and its payload bytes. */
  datatype Value = Value(valueType: ValueType, payload: seq<byte>)

  /** 2^63 - 1, the largest revision of either Store. */
  const REVISION_MAX: nat := 0x7fff_ffff_ffff_ffff

  /**
   Whether an allocation or a SQL statement fails. In a reliable environment none does, so that contracts can say what
   succeeds as well as what a failure leaves behind.
   */
  method Fails(reliable: bool) returns (failed: bool)
    ensures reliable ==> !failed
  {
    failed := *;
    failed := failed && !reliable;
  }
}
