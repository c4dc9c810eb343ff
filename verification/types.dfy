/** Data shared by every part of the study-session engine: the vocabulary
    entries served by the words query, the learner's spaced-repetition
    records, and the elements of a session queue. */
module Types {

  /** A value that may be absent: JavaScript's `null`/`undefined`. */
  datatype Option<+T> = None | Some(value: T)

  /** A vocabulary entry. `yomi` is the kana reading and `pitch` the accent
      class: the mora after which the pitch drops, 0 for no drop. */
  datatype Word = Word(
    id: int,
    tango: string,
    yomi: string,
    pitch: int,
    definition: string,
    pos: string)

  /** A learner's record for one word. The interval (in days) and the easing
      factor arrive from the server as numbers that may be fractional; they
      are exact rationals here. `due` is a timestamp in milliseconds. */
  datatype StudyItem = StudyItem(
    id: int,
    item: Word,
    due: int,
    interval: real,
    easingFactor: real)

  /** One element of a session queue: study items for a signed-in learner,
      bare words for an anonymous visitor. */
  datatype Entry = Studied(studyItem: StudyItem) | Bare(word: Word)

  /** The word an entry quizzes. */
  function WordOf(e: Entry): Word
  {
    match e
    case Studied(s) => s.item
    case Bare(w) => w
  }
}
