/**
 * The rows the player works with: songs, playlists and the playlist-song
 * relation, as the database returns them.
 */
module Library {
  import opened Wrappers

  type SongId = string
  type PlaylistId = string

  /** Milliseconds since the epoch, as a `Date` holds them. */
  type Timestamp = int

  /** A row of the `songs` table. */
  datatype Song = Song(
    id: SongId,
    name: string,
    artist: string,
    album: Option<string>,
    genre: Option<string>,
    bpm: Option<int>,
    key: Option<string>,
    duration: int,
    imageUrl: Option<string>,
    audioUrl: string,
    createdAt: Timestamp)

  /** A row of the `playlists` table. */
  datatype Playlist = Playlist(
    id: PlaylistId,
    name: string,
    coverUrl: Option<string>,
    createdAt: Timestamp,
    updatedAt: Timestamp)

  /** A row of the `playlist_songs` table: `songId` sits at position `order` of `playlistId`. */
  datatype PlaylistSong = PlaylistSong(playlistId: PlaylistId, songId: SongId, order: int)
}
