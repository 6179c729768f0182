/** The catalog record the app decodes and shows. Its JSON decoding is synthesized and not modelled. */
module Superheroes {
  import opened Wrappers

  /** The representative image of a character, known here only by its reference. */
  datatype Image = Image(reference: string)

  datatype Superhero = Superhero(name: Option<string>, description: Option<string>, thumbnail: Image)
}
