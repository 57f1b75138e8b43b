/** Optional values: `None` stands for Java's null, or for a Java exception where a caller catches it. */
module Results {
  datatype Option<+T> = None | Some(value: T)
}
