/** The string form of the library's Writer: it collects characters. */
module Writers {
  class Writer {
    var data: string

    constructor ()
      ensures data == ""
    {
      data := "";
    }

    method WriteChar(c: char)
      modifies this
      ensures data == old(data) + [c]
    {
      data := data + [c];
    }

    method Write(s: string)
      modifies this
      ensures data == old(data) + s
    {
      data := data + s;
    }
  }
}
