/** What a loop has done, in front of what the recursion still gives: for each shape of result. */
module Joining {
  import opened Wrappers

  function Onto<T>(done: seq<T>, rest: Option<seq<T>>): Option<seq<T>> {
    match rest
    case None => None
    case Some(more) => Some(done + more)
  }

  /** The same for a result with something besides the sequence. */
  function OntoFirst<T, U>(done: seq<T>, rest: Option<(seq<T>, U)>): Option<(seq<T>, U)> {
    match rest
    case None => None
    case Some((more, other)) => Some((done + more, other))
  }

  function Prepend<T, E>(done: seq<T>, rest: Result<seq<T>, E>): Result<seq<T>, E> {
    match rest
    case Failure(_) => rest
    case Success(more) => Success(done + more)
  }

  function PrependFirst<T, U, E>(done: seq<T>, rest: Result<(seq<T>, U), E>): Result<(seq<T>, U), E> {
    match rest
    case Failure(_) => rest
    case Success((more, other)) => Success((done + more, other))
  }

  lemma NothingDone<T>(s: seq<T>)
    ensures [] + s == s && s + [] == s
  {
  }

  lemma DoneTwice<T>(a: seq<T>, b: seq<T>, s: seq<T>)
    ensures a + (b + s) == a + b + s
  {
  }

  lemma OntoNothing<T>(rest: Option<seq<T>>, s: seq<T>)
    ensures Onto([], rest) == rest && Onto(s, Some([])) == Some(s)
  {
    if rest.Some? {
      NothingDone(rest.value);
    }
    NothingDone(s);
  }

  lemma OntoTwice<T>(a: seq<T>, b: seq<T>, rest: Option<seq<T>>)
    ensures Onto(a, Onto(b, rest)) == Onto(a + b, rest)
  {
    if rest.Some? {
      DoneTwice(a, b, rest.value);
    }
  }

  lemma OntoSome<T>(a: seq<T>, b: seq<T>)
    ensures Onto(a, Some(b)) == Some(a + b)
  {
  }

  lemma OntoFirstNothing<T, U>(rest: Option<(seq<T>, U)>)
    ensures OntoFirst([], rest) == rest
  {
    if rest.Some? {
      NothingDone(rest.value.0);
    }
  }

  lemma OntoFirstTwice<T, U>(a: seq<T>, b: seq<T>, rest: Option<(seq<T>, U)>)
    ensures OntoFirst(a, OntoFirst(b, rest)) == OntoFirst(a + b, rest)
  {
    if rest.Some? {
      DoneTwice(a, b, rest.value.0);
    }
  }

  lemma PrependNothing<T, E>(rest: Result<seq<T>, E>)
    ensures Prepend([], rest) == rest
  {
    if rest.Success? {
      NothingDone(rest.value);
    }
  }

  lemma PrependTwice<T, E>(a: seq<T>, b: seq<T>, rest: Result<seq<T>, E>)
    ensures Prepend(a, Prepend(b, rest)) == Prepend(a + b, rest)
  {
    if rest.Success? {
      DoneTwice(a, b, rest.value);
    }
  }

  lemma PrependFirstNothing<T, U, E>(rest: Result<(seq<T>, U), E>)
    ensures PrependFirst([], rest) == rest
  {
    if rest.Success? {
      NothingDone(rest.value.0);
    }
  }

  lemma PrependFirstTwice<T, U, E>(a: seq<T>, b: seq<T>, rest: Result<(seq<T>, U), E>)
    ensures PrependFirst(a, PrependFirst(b, rest)) == PrependFirst(a + b, rest)
  {
    if rest.Success? {
      DoneTwice(a, b, rest.value.0);
    }
  }
}
