/** A value that may be missing. In this model `None` stands for the JavaScript
    values `undefined` and `NaN` that the transcript handler can produce. */
module Optional {

  datatype Option<+T> = None | Some(value: T)
}
