/** The roster's record shapes: a player's role and the player itself. */
module Players {

  /** The four playing roles ('PORTIERE', 'DIFENSORE', 'CENTROCAMPISTA', 'ATTACCANTE'). */
  datatype Role = Portiere | Difensore | Centrocampista | Attaccante

  /** A roster entry; the photo and the attachments are left out of the model. */
  datatype Player = Player(id: string, name: string, year: int, role: Role)
}
