/** Notions shared by the models. */
module Common {
  datatype Option<T> = None | Some(value: T)

  /** What has happened so far, latest last. */
  datatype History<T> = Start | Then(past: History<T>, last: T)

  function Items<T>(h: History<T>): set<T> {
    match h
    case Start => {}
    case Then(past, last) => Items(past) + {last}
  }

  /** b continues a. */
  ghost predicate Within<T>(a: History<T>, b: History<T>) {
    a == b || (b.Then? && Within(a, b.past))
  }

  lemma {:induction false} WithinTrans<T>(a: History<T>, b: History<T>, c: History<T>)
    requires Within(a, b) && Within(b, c)
    ensures Within(a, c)
  {
    if b == c {
    } else {
      WithinTrans(a, b, c.past);
    }
  }
}
