/** Outcomes shared by the utility modules: a thrown error becomes `Err` with the
    error's message, and a JavaScript `null` result becomes `None`. */
module Common {

  datatype Option<+T> = None | Some(value: T)

  datatype Result<+T> = Ok(value: T) | Err(message: string)
}
