/** Small value wrappers shared by the view-model modules. */
module Common {

  /** A value that may be absent: a C# reference that may be null. */
  datatype Option<+T> = None | Some(value: T) {
    function GetOr(default: T): T {
      match this
      case Some(v) => v
      case None => default
    }
  }

  /** What an awaited service call produced: a value, or an exception. */
  datatype Reply<+T> = Completed(value: T) | Threw

  /** How a list command ended as the user sees it: it returned at once,
      it ran to the end, or it showed an error alert. */
  datatype Desfecho = Ignorado | Concluido | ErroExibido
}
