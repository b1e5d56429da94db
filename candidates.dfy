/** The record the two pages exchange through the browser's storage slot. */
module Candidates {

  /** A value that may be null, as the profile's optional text fields are. */
  datatype Option<+T> = None | Some(value: T)

  /**
   * One developer profile. `id` is the key used for de-duplication and removal;
   * `login` is the handle, always present; the other text fields may be null.
   */
  datatype Candidate = Candidate(
    id: int,
    login: string,
    name: Option<string>,
    location: Option<string>,
    company: Option<string>,
    email: Option<string>,
    bio: Option<string>,
    avatarUrl: string,
    htmlUrl: string)
}
