/**
 * Which undeclared names `lookupPath` sees through: exactly the library's wrapper and array types,
 * and by the rules of the language those have exactly the paths of their argument.
 */
module TypeWrappers {
  import opened Prelude
  import opened TypeLookup
  import opened TypeTruth
  import opened TypeMeaning

  /**
   * A name that resolves to nothing in reach: the four wrappers answer for their argument, the two
   * array types for it after an element step, and every other name is `unknown`.
   */
  lemma SeenThrough(
    w: World, file: FileId, head: string, args: seq<Ty>, steps: seq<Step>, seen: set<Key>, fuel: nat)
    requires Resolve(w, file, head).OutOfReach? && steps != []
    ensures var e := LookupTy(w, file, Reference(head, false, args), steps, seen, fuel + 1);
            if args == [] then e == Value(Unknown, seen)
            else if head == "Partial" || head == "Required" || head == "Readonly" || head == "NonNullable" then
              e == LookupTy(w, file, args[0], steps, seen, fuel)
            else if (head == "Array" || head == "ReadonlyArray") && steps[0].Element? then
              e == LookupTy(w, file, args[0], steps[1..], seen, fuel)
            else e == Value(Unknown, seen)
  {
  }

  /** And that is what such a type has and can have, where the file does not declare the name itself. */
  lemma TrulyTransparent(
    w: World, at: Site, head: string, args: seq<Ty>, rivals: seq<Rival>, steps: seq<Step>, n: nat)
    requires (at.file, head) !in w.means && head !in at.scope && steps != [] && args != []
    requires at.ty == Reference(head, false, args)
    ensures head in ["Partial", "Required", "Readonly", "NonNullable"] ==>
              && (HasTy(w, at, steps, n + 1) <==> HasTy(w, at.(ty := args[0]), steps, n))
              && (CanTy(w, at, rivals, steps, n + 1) <==> CanTy(w, at.(ty := args[0]), rivals, steps, n))
    ensures head in ["Array", "ReadonlyArray"] && steps[0].Element? ==>
              && (HasTy(w, at, steps, n + 1) <==> HasTy(w, at.(ty := args[0]), steps[1..], n))
              && (CanTy(w, at, rivals, steps, n + 1) <==>
                    CanTy(w, at.(ty := args[0]), Onward(rivals, steps), steps[1..], n))
    ensures head !in ["Partial", "Required", "Readonly", "NonNullable", "Array", "ReadonlyArray"] ==>
              !HasTy(w, at, steps, n + 1) && CanTy(w, at, rivals, steps, n + 1)
  {
  }

  /**
   * So a key below a wrapped property is reported `missing` exactly if it is of the bare type: the
   * lookup of `name.rest` where the property `name` is a wrapper of `t`.
   */
  lemma WrappedProperty(
    w: World, id: DeclId, p: Prop, head: string, t: Ty, steps: seq<Step>, seen: set<Key>, fuel: nat)
    requires id in w.decls && w.decls[id].Interface? && |steps| > 1 && steps[0].Member? && (id, |steps|) !in seen
    requires Visible(w.decls[id].members, steps[0].name) == Some(p) && p.ty == Some(Reference(head, false, [t]))
    requires head in ["Partial", "Required", "Readonly", "NonNullable"] && Resolve(w, id.file, head).OutOfReach?
    ensures LookupDecl(w, id, steps, seen, fuel + 3)
         == LookupTy(w, id.file, t, steps[1..], seen + {(id, |steps|)}, fuel + 1)
  {
    SeenThrough(w, id.file, head, [t], steps[1..], seen + {(id, |steps|)}, fuel + 1);
  }
}
