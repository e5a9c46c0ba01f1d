/** The script's top level: filter the lines, convert, drop unwanted commands,
    rewrite bold text, and filter the lines again. Reading the input file and
    writing the output file are left to the caller. */
module Pipeline {
  import opened Outcomes
  import opened Text
  import LineFilter
  import Conversion
  import CommandFilter
  import FontStyle

  /** The five passes in order. Only the conversion can fail, and then the
      whole script stops with its error. Whatever comes out has gone through
      the line filter last, so every line of it is stripped and not a
      comment, it ends with a newline unless it is empty, and it never holds
      two blank lines in a row. */
  function Latex2Markdown(data: String): (r: Outcome<String>)
    ensures r.Failed? <==> Conversion.Convert(LineFilter.FilterDocument(data)).Failed?
    ensures r.Failed? ==> r.fault == Conversion.Convert(LineFilter.FilterDocument(data)).fault
    ensures r.Done? ==> r.value == [] || r.value[|r.value| - 1] == '\n'
    ensures r.Done? ==> forall l :: l in Split(r.value, '\n') ==> LineFilter.CleanLine(l)
    ensures r.Done? ==> LineFilter.NoBlankRun(r.value)
  {
    match Conversion.Convert(LineFilter.FilterDocument(data))
    case Failed(f) => Failed(f)
    case Done(d) => Done(LineFilter.FilterDocument(FontStyle.FormatFont(CommandFilter.FilterCommands(d))))
  }
}
