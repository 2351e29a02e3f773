/** The credentials a proxy is configured with. */
module Config {
  import opened Basics
  import Utf8

  datatype AuthConfig = AuthConfig(username: Option<Utf8.Utf8String>, password: Option<Utf8.Utf8String>)
}
