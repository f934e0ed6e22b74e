/**
 * The callback-style string reverser of reverse-callback.js. A string is a
 * sequence of code points (what spreading a JavaScript string yields), and
 * the callback's invocations are returned as the list of argument lists it
 * was called with.
 */
module ReverseCallback {

  /** The `input` argument: a string, or any value whose `typeof` is not `'string'`. */
  datatype Input = Str(s: string) | NonStr

  /** One argument passed to the callback. */
  datatype Arg = Null | ErrorValue(message: string) | StrValue(s: string)

  /** One invocation of the callback, with its arguments in order. */
  datatype Invocation = Invocation(args: seq<Arg>)

  /** The message of the error handed to the callback for a non-string input. */
  const NOT_A_STRING: string := "Input must be a string"

  /** Reversal as a mirror: position `i` of the result is position `n-1-i` of the input. */
  function Reverse<T>(s: seq<T>): (r: seq<T>)
    ensures |r| == |s|
    ensures forall i :: 0 <= i < |s| ==> r[i] == s[|s| - 1 - i]
    decreases |s|
  {
    if s == [] then [] else Reverse(s[1..]) + [s[0]]
  }

  /** Reversing twice gives back the original sequence. */
  lemma ReverseInvolution<T>(s: seq<T>)
    ensures Reverse(Reverse(s)) == s
  {
  }

  /**
   * `[ ...input ].reverse().join('')`: the code points copied from last to
   * first into a new string.
   */
  method ReverseCodePoints(s: string) returns (r: string)
    ensures r == Reverse(s)
  {
    r := [];
    var i := |s|;
    while i > 0
      invariant 0 <= i <= |s|
      invariant |r| == |s| - i
      invariant forall k :: 0 <= k < |r| ==> r[k] == s[|s| - 1 - k]
    {
      i := i - 1;
      r := r + [s[i]];
    }
  }

  /**
   * The exported `(input, callback)` function. The callback is called exactly
   * once: with an `Error('Input must be a string')` alone when the input is
   * not a string, otherwise with `null` and the reversed string.
   */
  method ReverseStringWithCallback(input: Input) returns (calls: seq<Invocation>)
    ensures |calls| == 1
    ensures input.NonStr? ==> calls[0] == Invocation([ErrorValue(NOT_A_STRING)])
    ensures input.Str? ==> calls[0] == Invocation([Null, StrValue(Reverse(input.s))])
  {
    if !input.Str? {
      calls := [Invocation([ErrorValue(NOT_A_STRING)])];
      return;
    }
    var reversed := ReverseCodePoints(input.s);
    calls := [Invocation([Null, StrValue(reversed)])];
  }

  /** The recorded example: "hello" reverses to "olleh", and back. */
  lemma HelloReversed()
    ensures Reverse("hello") == "olleh"
    ensures Reverse("olleh") == "hello"
  {
  }
}
