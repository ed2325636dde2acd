/**
 * Stand-ins for what the game engine library supplies. Only sprite identity
 * matters to the world model, so a sprite is a name.
 */
module Engine {
  datatype Sprite = Sprite(name: string)
}
