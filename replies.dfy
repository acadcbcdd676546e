/** What a request handler can answer: an optional value, the failures the
    routes report (by a flash message and a redirect in the browser pages,
    by a status code in the JSON API) and a result carrying one or the
    other. */
module Replies {

  datatype Option<T> = None | Some(value: T)

  datatype Failure =
    | BadRequest      // 400: abort(400) in existing_file_path
    | NotFound        // 404: abort(404) in existing_file_path; "not found" of delete
    | InvalidNewName  // rename: stripped name empty or holding a separator (API: 400)
    | NameExists      // rename: the target already exists (API: 409)
    | NotEditable     // edit: the file fails the editability rule
    | BadEncoding     // edit form: the bytes are not UTF-8
    | NoFileChosen    // replace: no file part, or one with an empty name
    | NoFiles         // upload: the request has no "files" parts at all (API: 400)
    | Unauthorized    // API: 401, X-API-Key does not match API_KEY
    | ServerError     // 500: src.rename raises ValueError for a new name holding NUL

  datatype Result<T> = Ok(value: T) | Err(failure: Failure)
}
