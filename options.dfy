/** The optional value used where the Java code can come back empty-handed (a null reference)
    and where a bounded model of an unbounded recursion can run out of rounds. */
module Options {

  datatype Option<T> = None | Some(value: T)

}
