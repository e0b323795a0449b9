/** Types shared by every route handler. */
module Common {

  datatype Option<+T> = None | Some(value: T)

  /** What a route handler answers. `RedirectToLogin` is the answer to an
      unauthenticated request; `SeeOther` is the 303 redirect a form post
      ends with; `Page` is a rendered template; `NotFound` is a 404 and
      `ServerError` an exception the handler does not catch (a 500). */
  datatype Response<+P> =
    | RedirectToLogin
    | SeeOther(location: string)
    | Page(content: P)
    | NotFound
    | ServerError

  /** The outcome of an outgoing HTTP request: it raised (network error,
      timeout, undecodable JSON), or it answered with a status code and a
      decoded body. */
  datatype Fetched<+T> = Failed | Reply(status: int, body: T)

  /** The current UTC time: microseconds since the epoch, and the text
      `isoformat()` gives for it. */
  datatype Clock = Clock(micros: int, iso: string)

  // Sequence facts stated over an element type the prover cannot look
  // into, which keeps them cheap for sequences of strings and records.

  /** A non-empty sequence is its head followed by its tail. */
  lemma HeadTail<T>(s: seq<T>)
    requires s != []
    ensures s == [s[0]] + s[1..]
  {
  }

  /** The first `i` elements of the first `i + 1`. */
  lemma PrefixOfPrefix<T>(s: seq<T>, i: nat)
    requires i < |s|
    ensures s[..i + 1][..i] == s[..i] && s[..i + 1] == s[..i] + [s[i]]
  {
  }

  lemma AppendAssoc<T>(a: seq<T>, b: seq<T>, c: seq<T>)
    ensures a + (b + c) == (a + b) + c
  {
  }

  /** A non-empty sequence is its front followed by its last element. */
  lemma InitLast<T>(s: seq<T>)
    requires s != []
    ensures s == s[..|s| - 1] + [s[|s| - 1]]
  {
  }

  /** The whole sequence as a prefix. */
  lemma FullPrefix<T>(s: seq<T>)
    ensures s[..|s|] == s
  {
  }

  /** The elements of `[p] + ([x] + s[1..])`, position by position. */
  lemma ReplaceHeadShape<T>(p: T, x: T, s: seq<T>, r: seq<T>)
    requires s != [] && r == [p] + ([x] + s[1..])
    ensures |r| == |s| + 1 && r[0] == p && r[1] == x
    ensures forall i :: 2 <= i < |r| ==> r[i] == s[i - 1]
  {
  }
}
