/** The two records the app receives from the Rick and Morty API. Both are
    immutable snapshots once fetched. */
module Model {

  /** An episode: identifier, title, air date and the URLs of the characters
      appearing in it. */
  datatype Episode = Episode(
    id: int,
    name: string,
    airDate: string,
    characters: seq<string>)

  /** A character: identifier, name, portrait URL, life status ("Alive",
      "Dead" or anything else), species, gender, and the names of its origin
      and current location. */
  datatype Character = Character(
    id: int,
    name: string,
    image: string,
    status: string,
    species: string,
    gender: string,
    origin: string,
    location: string)
}
