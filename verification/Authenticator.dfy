/** The SOCKS5 users, kept in a red-black tree by name. */
module Authenticator {
  import opened ByteOrder
  import opened RBShape
  import opened RBSplice
  import opened RBTrees
  import opened RBSearch

  class User {
    const name: Bytes
    const pass: Bytes

    constructor (name: Bytes, pass: Bytes)
      ensures this.name == name && this.pass == pass
    {
      this.name, this.pass := name, pass;
    }
  }

  const byName: Keying<User> := Keying((u: User) => u.name, ByLength)

  class Authenticator {
    const tree: RBTree<User>

    /** The tree is a valid red-black tree in the order of the names. */
    ghost predicate Valid()
      reads this, tree, tree.mem.Keys
    {
      tree.Valid() && Ordered(Inorder(tree.shape), byName)
    }

    /** The users by name: what the tree stands for. */
    ghost function Users(): map<Bytes, User>
      reads this, tree
    {
      Table(Inorder(tree.shape), byName)
    }

    constructor ()
      ensures Valid() && Users() == map[] && fresh(tree)
    {
      tree := new RBTree<User>();
    }

    method Add(user: RBNode<User>) returns (res: int)
      requires Valid() && user !in tree.mem
      modifies tree, user, tree.mem.Keys
      ensures Valid()
      ensures if user.item.name in old(Users()) then res == -1 && Users() == old(Users()) && tree.mem == old(tree.mem)
              else res == 0 && Users() == old(Users())[user.item.name := user.item] && tree.mem.Keys == old(tree.mem.Keys) + {user}
    {
      var this_, parent, side;
      ghost var c;
      this_, parent, side, c := Walk(tree, user.item.name, byName);
      if this_ != null {
        return -1;
      }
      InsertAt(tree, user, parent, side, c, byName);
      return 0;
    }

    method Del(name: Bytes) returns (res: int)
      requires Valid()
      modifies tree, tree.mem.Keys
      ensures Valid() && Users() == old(Users()) - {name}
      ensures res == if name in old(Users()) then 0 else -1
    {
      var node, parent, side;
      ghost var c;
      node, parent, side, c := Walk(tree, name, byName);
      if node == null {
        return -1;
      }
      EraseFrom(tree, node, byName);
      return 0;
    }

    method Get(name: Bytes) returns (user: User?)
      requires Valid()
      ensures user == if name in Users() then Users()[name] else null
    {
      var node, parent, side;
      ghost var c;
      node, parent, side, c := Walk(tree, name, byName);
      if node == null {
        return null;
      }
      return node.item;
    }

    method Clear()
      requires Valid()
      modifies tree, tree.mem.Keys
      ensures Valid() && Users() == map[]
    {
      var n := tree.First();
      while n != null
        invariant Valid() && tree.mem.Keys <= old(tree.mem.Keys)
        invariant n == if Inorder(tree.shape) == [] then null else Inorder(tree.shape)[0]
        decreases |tree.mem|
      {
        NodesInorder(tree.shape);
        ghost var keys := tree.mem.Keys;
        EraseFrom(tree, n, byName);
        assert |tree.mem.Keys| < |keys|;
        n := tree.First();
      }
    }
  }
}
