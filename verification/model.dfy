/** Values shared by every module of the model. */
module Model {

  datatype Option<+T> = None | Some(value: T)

  /** An opaque ciphertext message. `stamp` is the source's Seq: 0 until the store assigns it. */
  datatype Envelope = Envelope(
    id: string,
    channelID: string,
    senderID: string,
    payload: string,
    createdAt: int,
    stamp: int)

  function Last<T>(s: seq<T>): T
    requires s != []
  {
    s[|s| - 1]
  }

  function Front<T>(s: seq<T>): seq<T>
    requires s != []
  {
    s[..|s| - 1]
  }

  lemma SplitLast<T>(s: seq<T>)
    requires s != []
    ensures Front(s) + [Last(s)] == s
  {}

  ghost predicate DistinctIds(es: seq<Envelope>) {
    forall i, j :: 0 <= i < j < |es| ==> es[i].id != es[j].id
  }

  ghost predicate HasId(es: seq<Envelope>, id: string) {
    exists i :: 0 <= i < |es| && es[i].id == id
  }
}
