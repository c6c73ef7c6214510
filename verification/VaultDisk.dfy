/**
 The file system under the encrypted vault: one directory with the vault file and one temporary
 file per process id. Directory entries have a visible and a durable side, contents are synced or not.
 */
module VaultDisk {

  import opened Bytes

  type Plain = map<string, string>

  /** A thread of a process. */
  datatype Client = Client(pid: nat, tid: nat)

  /** Who holds the exclusive lock on the lock file. */
  datatype Holder = Free | Held(client: Client)

  /** What has been written to a file. `Torn` stands for the debris of a write that failed midway. */
  datatype Piece = Magic | Nonce(n: nat) | Sealed(key: Bytes, nonce: nat, plain: Plain) | Torn

  type Content = seq<Piece>

  datatype Opened = Bad | Good(plain: Plain)

  /** The complete file `save_plain` writes. */
  function Image(key: Bytes, nonce: nat, plain: Plain): Content {
    [Magic, Nonce(nonce), Sealed(key, nonce, plain)]
  }

  /** Header check and decryption: an ideal cipher opens what was sealed under the same key and nonce. */
  function Open(key: Bytes, content: Content): Opened {
    if |content| == 3 && content[0].Magic? && content[1].Nonce? && content[2].Sealed?
       && content[2].key == key && content[2].nonce == content[1].n
    then Good(content[2].plain) else Bad
  }

  /** An ideal cipher: a key opens exactly the complete files sealed under it, to what was sealed. */
  lemma OpenExactly(key: Bytes, content: Content, plain: Plain)
    ensures Open(key, content) == Good(plain) <==>
            exists nonce :: content == [Magic, Nonce(nonce), Sealed(key, nonce, plain)]
  {
    if Open(key, content) == Good(plain) {
      assert content == [Magic, Nonce(content[1].n), Sealed(key, content[1].n, plain)];
    }
  }

  datatype Inode = Inode(content: Content, synced: bool)

  datatype Entry = Missing | File(inode: Inode)

  /**
   `vault` lists what the vault's name has referred to since the directory was last synced, oldest
   first: the last one is visible to every process, any of them may be found after a power loss.
   */
  datatype Disk = Disk(vault: seq<Entry>, temps: map<nat, Inode>)

  function Visible(d: Disk): Entry
    requires d.vault != []
  {
    d.vault[|d.vault| - 1]
  }

  function CreateTemp(d: Disk, pid: nat): Disk {
    d.(temps := d.temps[pid := Inode([], false)])
  }

  function Append(d: Disk, pid: nat, piece: Piece): Disk
    requires pid in d.temps
  {
    d.(temps := d.temps[pid := Inode(d.temps[pid].content + [piece], false)])
  }

  function SyncTemp(d: Disk, pid: nat): Disk
    requires pid in d.temps
  {
    d.(temps := d.temps[pid := d.temps[pid].(synced := true)])
  }

  /** `rename`: atomic, and durable only once the directory is synced. */
  function RenameTemp(d: Disk, pid: nat): Disk
    requires pid in d.temps
  {
    Disk(d.vault + [File(d.temps[pid])], d.temps - {pid})
  }

  function RemoveTemp(d: Disk, pid: nat): Disk {
    d.(temps := d.temps - {pid})
  }

  /** A directory sync that forgets all but the newest `|vault| - k` entries; complete when one is left. */
  function SyncDirectory(d: Disk, k: nat): Disk
    requires k < |d.vault|
  {
    d.(vault := d.vault[k..])
  }

  /** Contents survive a power loss only if synced; otherwise anything may be found. */
  function Recovered(e: Entry, garbage: Content): Entry {
    match e
    case Missing => Missing
    case File(inode) => File(Inode(if inode.synced then inode.content else garbage, true))
  }

  /** Power loss: some entry since the last sync becomes the only one; any temporary files remain. */
  function Crash(d: Disk, pick: nat, garbage: Content, temps: map<nat, Inode>): Disk
    requires pick < |d.vault|
  {
    Disk([Recovered(d.vault[pick], garbage)], temps)
  }
}
