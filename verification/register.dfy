/**
  A register descriptor: the name of one physical register and the text
  describing what it currently holds. A register that holds nothing is
  marked with the content "none"; the always-zero register holds "0".
*/
module AstRegister {

  /** Content of a register that holds no value. */
  const FreeContent: string := "none"

  /** Content of the hard-wired zero register. */
  const ZeroContent: string := "0"

  /** The two-argument constructor: both fields are stored verbatim. */
  datatype Register = Register(name: string, content: string)

  predicate IsFree(r: Register) {
    r.content == FreeContent
  }

  /** The default constructor: no name and an empty content, which is not
      the "none" marker a free register carries. */
  function DefaultRegister(): (r: Register)
    ensures |r.name| == 0 && |r.content| == 0
    ensures !IsFree(r) && r.content != ZeroContent
  {
    Register("", "")
  }
}
