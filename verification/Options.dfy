module Options {

  datatype Option<+T> = None | Some(value: T)
  {
    function Or(other: Option<T>): Option<T> {
      if this.Some? then this else other
    }

    function Else(other: T): T {
      if this.Some? then value else other
    }
  }
}
