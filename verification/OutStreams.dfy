/** An output stream that only grows at its end. */
module OutStreams {

  class OutStream {
    var contents: string

    constructor ()
      ensures contents == ""
    {
      contents := "";
    }

    method Write(text: string)
      modifies this
      ensures contents == old(contents) + text
    {
      contents := contents + text;
    }
  }
}
