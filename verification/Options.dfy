/** The two small result types shared by the models below. */
module Options {

  datatype Option<+T> = None | Some(value: T)

  /** The codes of the newer engine's Status class (kvs_status.h). */
  datatype Status = Ok | NotExist | Exist | InvalidParam | IOError | EndOfFile
}
