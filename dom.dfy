/** Small DOM conventions shared by the panels. */
module Dom {

  /** `String(b)` for a boolean, as written into an ARIA attribute. */
  function BoolAttr(b: bool): (s: string)
    ensures s == "true" <==> b
  {
    if b then "true" else "false"
  }
}
