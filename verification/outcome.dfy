/** The ways a run of either pipeline can abort, and the failure-compatible
    result type every fallible step of the model returns. Each error stands for
    an exception the tool lets escape and that ends the run. */
module Outcome {

  datatype Error =
    /** The image length is not a multiple of the sector size: the last
        fixed-size sector copy runs past the end of the image. */
    | MisalignedImage(length: nat)
    /** The image has fewer sectors than the directory scan indexes. */
    | TooFewSectors(count: nat)
    /** A numbered sector artifact that repacking reads does not exist. */
    | MissingSector(index: nat)
    /** The file artifact named by a populated entry does not exist. */
    | MissingFile(name: string)
    /** A file to be packed does not fill a whole number of sectors. */
    | SizeMismatch(name: string, length: nat)
    /** The battle pointer does not lie inside the working buffer. */
    | PointerOutOfRange(offset: nat, length: nat)
    /** The working buffer does not fit in the fixed-size image. */
    | ImageTooLarge(length: nat)

  datatype Result<+T> = Ok(value: T) | Err(error: Error) {

    predicate IsFailure() {
      Err?
    }

    function PropagateFailure<U>(): Result<U>
      requires Err?
    {
      Err(error)
    }

    function Extract(): T
      requires Ok?
    {
      value
    }
  }
}
