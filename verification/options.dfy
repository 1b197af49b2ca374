/** An optional value. `None` stands for a JavaScript `undefined`/`null`
    where the source tests a value for presence. */
module Options {

  datatype Option<+T> = None | Some(value: T)

}
