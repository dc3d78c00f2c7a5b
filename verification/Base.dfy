/** Shared vocabulary: optional values, results that may carry an error, and byte strings. */
module Base {

  datatype Option<+T> = None | Some(value: T)

  /** The value a call returns, or the exception it throws. */
  datatype Result<+T, +E> = Ok(value: T) | Err(error: E) {
    predicate IsFailure() {
      Err?
    }

    function PropagateFailure<U>(): Result<U, E>
      requires Err?
    {
      Err(error)
    }

    function Extract(): T
      requires Ok?
    {
      value
    }
  }

  type byte = bv8

  /** The contents of a `std::string`: a sequence of bytes. */
  type Text = seq<byte>

  /** The components of a path. */
  type Path = seq<Text>

  const NEWLINE: byte := 10
  const SLASH: byte := 47

  /** The bytes of an ASCII literal. */
  function Ascii(s: string): (t: Text)
    ensures |t| == |s|
  {
    seq(|s|, i requires 0 <= i < |s| => if s[i] < 128 as char then s[i] as int as byte else 63)
  }

  lemma {:induction false} AsciiAt(s: string, i: nat)
    requires i < |s| && s[i] < 128 as char
    ensures Ascii(s)[i] == s[i] as int as byte
  {
  }

  function Min(a: int, b: int): (m: int)
    ensures m <= a && m <= b && (m == a || m == b)
  {
    if a <= b then a else b
  }

  /** The first `k` elements, or all of them when there are fewer. */
  function Take<T>(s: seq<T>, k: nat): (t: seq<T>)
    ensures t <= s && |t| == Min(k, |s|)
  {
    s[..Min(k, |s|)]
  }

  /** The last `k` elements, or all of them when there are fewer. */
  function Last<T>(s: seq<T>, k: nat): (t: seq<T>)
    ensures |t| == Min(k, |s|) && t == s[|s| - |t|..]
  {
    s[|s| - Min(k, |s|)..]
  }

  /** True if no byte of `a` is a byte of `b`. */
  ghost predicate ShareNoByte(a: Text, b: Text) {
    forall x: byte :: x in a ==> x !in b
  }

  lemma {:induction false} Associative<T>(a: seq<T>, b: seq<T>, c: seq<T>)
    ensures a + (b + c) == a + b + c
  {
  }
}
