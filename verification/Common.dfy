/** Wrappers shared by the models. */
module Common {

  datatype Option<+T> = None | Some(value: T)

  datatype Result<+T, +E> = Ok(value: T) | Err(error: E)

  // A sealed predicate P is written `forall s {:trigger Opened(s)} :: Opened(s) ==> Body`:
  // its definition is used only by proofs that mention `Opened(Seal)`, and the
  // others reason with P as a whole.
  datatype Seal = Seal

  predicate Opened(s: Seal) { true }

  lemma Regroup<T>(a: seq<T>, b: seq<T>, c: seq<T>)
    ensures a + b + c == a + (b + c)
  {
  }

  lemma PrefixGrows<T>(s: seq<T>, n: nat)
    requires n < |s|
    ensures s[..n] + [s[n]] == s[..n + 1]
  {
  }
}
