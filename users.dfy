/** The user record, reduced to the attributes the query pipeline reads. */
module Users {
  import opened Wrappers

  /** A user as fetched from upstream; a Java null attribute is None. */
  datatype User = User(
    id: int,
    firstName: Option<string>,
    lastName: Option<string>,
    username: Option<string>)
}
