module HTTPVersions {
  datatype HTTPVersion = HTTP1_1 | HTTP_2
}
