/** Go's `(value, error)` returns. */
module Results {

  datatype Error =
    | NodeNotFound
    | NodeNotAlive
    | AlreadyExists
    | EmptyKey
    | EmptyHashList
    | EmptyHash
    | EmptyPath
    | EmptyChunk
    | HashTaken
    | ContentDiffers
    | NoParentFolder
    | FileMissing
    | Unreadable
    | Disconnected

  datatype Result<+T> = Ok(value: T) | Err(error: Error)
}
