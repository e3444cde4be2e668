/** The usual optional value: `None` stands for JavaScript's `NaN`,
    `undefined` or a rejected request, depending on where it is used. */
module Options {

  datatype Option<+T> = None | Some(value: T)
}
