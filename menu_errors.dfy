/** Error kinds and result wrappers shared by the pagination model. */
module MenuErrors {

  /** The failures a navigation step can end in: `NothingOnThatPage` is the
      library's own exception; `ZeroDivision` is what Python raises when the
      last page is computed with `per_page == 0`. */
  datatype MenuError = NothingOnThatPage | ZeroDivision

  datatype Result<T> = Ok(value: T) | Err(error: MenuError)

  datatype Option<T> = None | Some(value: T)
}
